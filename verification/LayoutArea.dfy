/** The areas that the layouts of libgwm hand to their children. */
module LayoutArea {
  datatype Area = Area(x: int, y: int, width: int, height: int)

  predicate Inside(a: Area, b: Area) {
    b.x <= a.x && a.x + a.width <= b.x + b.width && b.y <= a.y && a.y + a.height <= b.y + b.height
  }

  predicate Apart(a: Area, b: Area) {
    a.x + a.width <= b.x || b.x + b.width <= a.x || a.y + a.height <= b.y || b.y + b.height <= a.y
  }

  /**
   How a stretch lies in a frame, on one axis: a gap before it and one behind it, and if
   it does not fill the frame what is left over is halved, the odd pixel going behind it
   (before it, if the frame is too short).
   */
  predicate LiesIn(at: int, length: int, frameAt: int, frame: int, before: nat, behind: nat, fills: bool) {
    var first, last := at - frameAt - before, frameAt + frame - (at + length) - behind;
    if fills then first == 0 && last == 0
    else if first + last >= 0 then last == first || last == first + 1
    else last == first || last == first - 1
  }
}
