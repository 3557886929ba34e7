/**
 The box layout of libgwm (libgwm/boxlayout.c), with boxes nested to any depth:
 minimum sizes and the areas that a run hands out.
 */
module BoxLayout {
  import opened CArith
  import opened LayoutArea
  import opened Tracks

  datatype Size = Size(width: nat, height: nat)

  /** Anything that is not a box only has a minimum size. */
  datatype Layout =
    | Leaf(size: Size)
    | Box(vertical: bool, children: seq<BoxChild>)

  datatype BoxChild = BoxChild(
    layout: Layout, proportion: nat, border: nat, left: bool, right: bool, up: bool, down: bool, fill: bool)

  function Along(vertical: bool, s: Size): nat { if vertical then s.height else s.width }

  /** The border before and after a child on one axis. */
  function Lead(vertical: bool, c: BoxChild): nat {
    if (if vertical then c.up else c.left) then c.border else 0
  }

  function Trail(vertical: bool, c: BoxChild): nat {
    if (if vertical then c.down else c.right) then c.border else 0
  }

  // ---- Minimum sizes ----

  function MinSize(l: Layout): Size
    decreases l
  {
    match l
    case Leaf(s) => s
    case Box(v, cs) =>
      var ts := TracksOf(v, cs);
      var main := Fixed(ts) + Longest(ts) * Units(ts);
      var other := Widest(!v, cs);
      if v then Size(other, main) else Size(main, other)
  }

  /** The minimum length of a child with its borders. */
  function Outer(vertical: bool, c: BoxChild): nat
    decreases c
  {
    Along(vertical, MinSize(c.layout)) + Lead(vertical, c) + Trail(vertical, c)
  }

  function TracksOf(vertical: bool, cs: seq<BoxChild>): (ts: seq<Track>)
    ensures |ts| == |cs|
    decreases cs
  {
    if cs == [] then []
    else TracksOf(vertical, cs[..|cs| - 1]) + [Track(Outer(vertical, cs[|cs| - 1]), cs[|cs| - 1].proportion)]
  }

  /** The greatest length among the tracks that share what is left. */
  function Longest(ts: seq<Track>): nat {
    if ts == [] then 0
    else
      var t, rest := ts[|ts| - 1], Longest(ts[..|ts| - 1]);
      if t.prop != 0 && t.len > rest then t.len else rest
  }

  /** The greatest length of a child on an axis. */
  function Widest(vertical: bool, cs: seq<BoxChild>): nat
    decreases cs
  {
    if cs == [] then 0
    else
      var o, rest := Outer(vertical, cs[|cs| - 1]), Widest(vertical, cs[..|cs| - 1]);
      if o > rest then o else rest
  }

  lemma {:induction false} TrackAt(vertical: bool, cs: seq<BoxChild>, i: nat)
    requires i < |cs|
    ensures TracksOf(vertical, cs)[i] == Track(Outer(vertical, cs[i]), cs[i].proportion)
    decreases |cs|
  {
    if i < |cs| - 1 { TrackAt(vertical, cs[..|cs| - 1], i); }
  }

  lemma {:induction false} LongestIsBound(ts: seq<Track>, i: nat)
    requires i < |ts| && ts[i].prop != 0
    ensures ts[i].len <= Longest(ts)
    decreases |ts|
  {
    if i < |ts| - 1 { LongestIsBound(ts[..|ts| - 1], i); }
  }

  lemma {:induction false} WidestIsBound(vertical: bool, cs: seq<BoxChild>, i: nat)
    requires i < |cs|
    ensures Outer(vertical, cs[i]) <= Widest(vertical, cs)
    decreases |cs|
  {
    if i < |cs| - 1 { WidestIsBound(vertical, cs[..|cs| - 1], i); }
  }

  // ---- Running a layout ----

  /** A position and a length on the main axis and on the other one, as an area. */
  function AreaOn(vertical: bool, mainPos: int, mainLen: int, otherPos: int, otherLen: int): Area {
    if vertical then Area(otherPos, mainPos, otherLen, mainLen) else Area(mainPos, otherPos, mainLen, otherLen)
  }

  function Origin(vertical: bool, a: Area): int { if vertical then a.y else a.x }

  function Extent(vertical: bool, a: Area): int { if vertical then a.height else a.width }

  /** A child's place and lengths on the two axes, less its borders, as an area. */
  function PlacedIn(v: bool, c: BoxChild, main: int, len: int, other: int, otherLen: int): Area {
    AreaOn(v, main + Lead(v, c), len - Lead(v, c) - Trail(v, c),
           other + Lead(!v, c), otherLen - Lead(!v, c) - Trail(!v, c))
  }

  /** The area of child i, less its borders. */
  function ChildArea(v: bool, cs: seq<BoxChild>, a: Area, i: nat): Area
    requires i < |cs|
  {
    var ts := TracksOf(v, cs);
    var unit := UnitLen(ts, Extent(v, a));
    var c := cs[i];
    var otherLen := if c.fill then Extent(!v, a) else Outer(!v, c);
    PlacedIn(v, c, Origin(v, a) + Offset(ts, unit, i), Given(ts[i], unit),
             TruncDiv(Extent(!v, a) - otherLen, 2) + Origin(!v, a), otherLen)
  }

  /** The areas of all leaves in a, from left to right or top to bottom. */
  function Areas(l: Layout, a: Area): seq<Area>
    decreases l
  {
    match l
    case Leaf(_) => [a]
    case Box(v, cs) => AreasUpTo(v, cs, a, |cs|)
  }

  function AreasUpTo(v: bool, cs: seq<BoxChild>, a: Area, n: nat): seq<Area>
    requires n <= |cs|
    decreases cs, n
  {
    if n == 0 then []
    else AreasUpTo(v, cs, a, n - 1) + ChildAreas(cs[n - 1], ChildArea(v, cs, a, n - 1))
  }

  function ChildAreas(c: BoxChild, a: Area): seq<Area>
    decreases c
  {
    Areas(c.layout, a)
  }

  function LeafSizes(l: Layout): seq<Size>
    decreases l
  {
    match l
    case Leaf(s) => [s]
    case Box(_, cs) => LeafSizesUpTo(cs, |cs|)
  }

  function LeafSizesUpTo(cs: seq<BoxChild>, n: nat): seq<Size>
    requires n <= |cs|
    decreases cs, n
  {
    if n == 0 then [] else LeafSizesUpTo(cs, n - 1) + ChildLeafSizes(cs[n - 1])
  }

  function ChildLeafSizes(c: BoxChild): seq<Size>
    decreases c
  {
    LeafSizes(c.layout)
  }

  // ---- Minimum sizes are enough ----

  predicate AtLeast(a: Area, s: Size) { a.width >= s.width && a.height >= s.height }

  /** Every leaf has at least its minimum size inside the area, and no two leaves overlap. */
  ghost predicate Sound(areas: seq<Area>, sizes: seq<Size>, a: Area) {
    && |areas| == |sizes|
    && (forall i :: 0 <= i < |areas| ==> AtLeast(areas[i], sizes[i]) && Inside(areas[i], a))
    && (forall i, j :: 0 <= i < j < |areas| ==> Apart(areas[i], areas[j]))
  }

  /** What is left of the area before coordinate `upTo` on an axis. */
  function Cut(v: bool, a: Area, upTo: int): Area {
    if v then a.(height := upTo - a.y) else a.(width := upTo - a.x)
  }

  lemma MinOfBox(v: bool, cs: seq<BoxChild>, a: Area)
    requires AtLeast(a, MinSize(Box(v, cs)))
    ensures var ts := TracksOf(v, cs);
      Fixed(ts) + Longest(ts) * Units(ts) <= Extent(v, a) && Widest(!v, cs) <= Extent(!v, a)
  {
  }

  /** A child gets at least its minimum size, in its track and inside the box. */
  lemma ChildIsEnough(v: bool, cs: seq<BoxChild>, a: Area, i: nat)
    requires AtLeast(a, MinSize(Box(v, cs))) && i < |cs|
    ensures var ts := TracksOf(v, cs);
      var unit := UnitLen(ts, Extent(v, a));
      var b := ChildArea(v, cs, a, i);
      && AtLeast(b, MinSize(cs[i].layout)) && Inside(b, a)
      && Origin(v, a) + Offset(ts, unit, i) <= Origin(v, b)
      && Origin(v, b) + Extent(v, b) <= Origin(v, a) + Offset(ts, unit, i + 1)
      && 0 <= Offset(ts, unit, i) <= Offset(ts, unit, i + 1) <= Extent(v, a)
  {
    hide TracksOf, Longest, Widest, Fixed, Units, UnitLen, Offset, MinSize;
    var ts := TracksOf(v, cs);
    var unit := UnitLen(ts, Extent(v, a));
    MinOfBox(v, cs, a);
    TrackAt(v, cs, i);
    WidestIsBound(!v, cs, i);
    TracksInside(ts, Longest(ts), Extent(v, a), i);
    NextOffset(ts, unit, i);
    GivenNonNegative(ts[i], unit);
    if cs[i].proportion != 0 {
      LongestIsBound(ts, i);
      ShareIsEnough(ts, Extent(v, a), i);
    }
  }

  /** A border where the flag asks for one. */
  function Gap(asked: bool, border: nat): nat { if asked then border else 0 }

  /**
   Every child lies in its track with exactly the borders that its flags ask for, and on
   the other axis in the box with those; there it fills the box or has its minimum length
   in the middle. The track is as long as the child with its borders, or has its share.
   */
  lemma {:induction false} BordersAreKept(v: bool, cs: seq<BoxChild>, a: Area, i: nat)
    requires i < |cs|
    ensures
      var ts := TracksOf(v, cs);
      var unit := UnitLen(ts, if v then a.height else a.width);
      var start, end := Offset(ts, unit, i), Offset(ts, unit, i + 1);
      var c, b, min := cs[i], ChildArea(v, cs, a, i), MinSize(cs[i].layout);
      var l, r, u, d := Gap(c.left, c.border), Gap(c.right, c.border), Gap(c.up, c.border), Gap(c.down, c.border);
      if v then
        && LiesIn(b.y, b.height, a.y + start, end - start, u, d, true)
        && LiesIn(b.x, b.width, a.x, a.width, l, r, c.fill)
        && (!c.fill ==> b.width == min.width)
        && end - start == (if c.proportion == 0 then u + min.height + d else c.proportion * unit)
      else
        && LiesIn(b.x, b.width, a.x + start, end - start, l, r, true)
        && LiesIn(b.y, b.height, a.y, a.height, u, d, c.fill)
        && (!c.fill ==> b.height == min.height)
        && end - start == (if c.proportion == 0 then l + min.width + r else c.proportion * unit)
  {
    hide TracksOf, Fixed, Units, UnitLen, Offset, MinSize, TruncDiv, LiesIn, Outer;
    var ts := TracksOf(v, cs);
    var unit := UnitLen(ts, Extent(v, a));
    var c := cs[i];
    var l, r, u, d := Gap(c.left, c.border), Gap(c.right, c.border), Gap(c.up, c.border), Gap(c.down, c.border);
    TrackAt(v, cs, i);
    NextOffset(ts, unit, i);
    OuterIs(c, MinSize(c.layout));
    var otherLen := if c.fill then Extent(!v, a) else Outer(!v, c);
    if v {
      InTrack(a.y + Offset(ts, unit, i), Given(ts[i], unit), u, d);
      AcrossTrack(a.x, a.width, otherLen, l, r, c.fill);
    } else {
      InTrack(a.x + Offset(ts, unit, i), Given(ts[i], unit), l, r);
      AcrossTrack(a.y, a.height, otherLen, u, d, c.fill);
    }
  }

  lemma InTrack(at: int, length: int, before: nat, behind: nat)
    ensures LiesIn(at + before, length - before - behind, at, length, before, behind, true)
  {
  }

  lemma AcrossTrack(at: int, frame: int, length: int, before: nat, behind: nat, fills: bool)
    requires fills ==> length == frame
    ensures LiesIn(TruncDiv(frame - length, 2) + at + before, length - before - behind,
                   at, frame, before, behind, fills)
  {
  }

  /** For instance a border on the left alone: the leaf stands 5 from the left, and reaches the right. */
  lemma BorderOnTheLeft()
    ensures
      var c := BoxChild(Leaf(Size(20, 10)), 0, 5, true, false, false, false, true);
      Areas(Box(false, [c]), Area(0, 0, 25, 10)) == [Area(5, 0, 20, 10)]
  {
    var c := BoxChild(Leaf(Size(20, 10)), 0, 5, true, false, false, false, true);
    var cs, a := [c], Area(0, 0, 25, 10);
    var b := ChildArea(false, cs, a, 0);
    LeafIs(Size(20, 10), b);
    hide *;
    BordersAreKept(false, cs, a, 0);
    AreasOfBox(false, cs, a);
    AreasMore(false, cs, a, 0);
    NextOffset(TracksOf(false, cs), UnitLen(TracksOf(false, cs), 25), 0);
    FlagsOf(c);
    WhereItFills(b.x, b.width, 0, 25, 5, 0);
    WhereItFills(b.y, b.height, 0, 10, 0, 0);
  }

  lemma FlagsOf(c: BoxChild)
    ensures Gap(c.left, c.border) == (if c.left then c.border else 0)
    ensures Gap(c.right, c.border) == (if c.right then c.border else 0)
    ensures Gap(c.up, c.border) == (if c.up then c.border else 0)
    ensures Gap(c.down, c.border) == (if c.down then c.border else 0)
  {
  }

  lemma WhereItFills(at: int, length: int, frameAt: int, frame: int, before: nat, behind: nat)
    requires LiesIn(at, length, frameAt, frame, before, behind, true)
    ensures at == frameAt + before && length == frame - before - behind
  {
  }

  lemma LeafIs(s: Size, a: Area)
    ensures MinSize(Leaf(s)) == s && Areas(Leaf(s), a) == [a]
  {
  }

  lemma ShareIsEnough(ts: seq<Track>, length: nat, i: nat)
    requires Fixed(ts) + Longest(ts) * Units(ts) <= length
    requires i < |ts| && ts[i].prop != 0
    ensures Given(ts[i], UnitLen(ts, length)) >= ts[i].len
  {
    hide Fixed, Units, UnitLen, Offset, Longest;
    LongestIsBound(ts, i);
    UnitsAreEnough(ts, Longest(ts), length);
    HasUnits(ts, i);
    TimesMonotone(1, ts[i].prop, UnitLen(ts, length));
  }

  /**
   No smaller size would do: at its minimum length the tracks of a box just fill it, a unit
   is just what some child with a proportion needs, and on the other axis the box is just
   as wide as some child.
   */
  lemma {:induction false} MinimumIsTight(v: bool, cs: seq<BoxChild>)
    ensures
      var ts := TracksOf(v, cs);
      var main, other := Along(v, MinSize(Box(v, cs))), Along(!v, MinSize(Box(v, cs)));
      && Offset(ts, UnitLen(ts, main), |ts|) == main
      && (Units(ts) > 0 ==>
            exists i :: 0 <= i < |cs| && cs[i].proportion != 0 && Outer(v, cs[i]) == UnitLen(ts, main))
      && (if cs == [] then other == 0 else exists i :: 0 <= i < |cs| && Outer(!v, cs[i]) == other)
  {
    hide TracksOf, Fixed, Units, Offset, Longest, Widest, Outer;
    MinOfAll(v, cs);
    var ts := TracksOf(v, cs);
    var main := Along(v, MinSize(Box(v, cs)));
    var n := Units(ts);
    hide MinSize;
    assert ts[..|ts|] == ts;
    OffsetIs(ts, UnitLen(ts, main), |ts|);
    if n > 0 {
      WholeUnits(Longest(ts), n);
      var i := LongestIsSome(ts);
      TrackAt(v, cs, i);
    } else {
      assert Longest(ts) * 0 == 0;
    }
    if cs == [] {
      assert cs[..0] == cs;
      NoChild(v, cs);
    } else {
      var i := WidestIsSome(!v, cs);
    }
  }

  lemma {:induction false} LongestIsSome(ts: seq<Track>) returns (i: nat)
    requires Units(ts) > 0
    ensures i < |ts| && ts[i].prop != 0 && ts[i].len == Longest(ts)
    decreases |ts|
  {
    var n := |ts| - 1;
    if Units(ts[..n]) > 0 {
      i := LongestIsSome(ts[..n]);
      if ts[n].prop != 0 && ts[n].len > Longest(ts[..n]) { i := n; }
    } else {
      i := n;
      NoUnits(ts[..n]);
    }
  }

  lemma {:induction false} NoUnits(ts: seq<Track>)
    requires Units(ts) == 0
    ensures Longest(ts) == 0
  {
    if ts != [] { NoUnits(ts[..|ts| - 1]); }
  }

  lemma {:induction false} WidestIsSome(v: bool, cs: seq<BoxChild>) returns (i: nat)
    requires cs != []
    ensures i < |cs| && Outer(v, cs[i]) == Widest(v, cs)
    decreases |cs|
  {
    hide Outer;
    var n := |cs| - 1;
    i := n;
    if n > 0 {
      var j := WidestIsSome(v, cs[..n]);
      if Outer(v, cs[n]) <= Widest(v, cs[..n]) { i := j; }
    } else {
      assert Widest(v, cs[..0]) == 0;
    }
  }

  lemma {:induction false} UpToIsSound(v: bool, cs: seq<BoxChild>, a: Area, n: nat)
    requires AtLeast(a, MinSize(Box(v, cs))) && n <= |cs|
    ensures var ts := TracksOf(v, cs);
      Sound(AreasUpTo(v, cs, a, n), LeafSizesUpTo(cs, n),
            Cut(v, a, Origin(v, a) + Offset(ts, UnitLen(ts, Extent(v, a)), n)))
    decreases cs, n
  {
    hide TracksOf, UnitLen, MinSize, ChildArea, Sound;
    if n == 0 {
      NothingIsSound(Cut(v, a, Origin(v, a) + Offset(TracksOf(v, cs), UnitLen(TracksOf(v, cs), Extent(v, a)), 0)));
    } else {
      var ts := TracksOf(v, cs);
      var unit := UnitLen(ts, Extent(v, a));
      var b := ChildArea(v, cs, a, n - 1);
      UpToIsSound(v, cs, a, n - 1);
      ChildIsEnough(v, cs, a, n - 1);
      LayoutIsSound(cs[n - 1].layout, b);
      SoundAppend(v, a, Offset(ts, unit, n - 1), Offset(ts, unit, n), b,
                  AreasUpTo(v, cs, a, n - 1), LeafSizesUpTo(cs, n - 1),
                  Areas(cs[n - 1].layout, b), LeafSizes(cs[n - 1].layout));
    }
  }

  lemma NothingIsSound(a: Area)
    ensures Sound([], [], a)
  {
  }

  /** Leaves before one coordinate and leaves after it together are sound. */
  lemma SoundAppend(v: bool, a: Area, from: int, upTo: int, b: Area,
                    xs: seq<Area>, sx: seq<Size>, ys: seq<Area>, sy: seq<Size>)
    requires from <= upTo
    requires Sound(xs, sx, Cut(v, a, Origin(v, a) + from)) && Sound(ys, sy, b) && Inside(b, a)
    requires Origin(v, a) + from <= Origin(v, b) && Origin(v, b) + Extent(v, b) <= Origin(v, a) + upTo
    ensures Sound(xs + ys, sx + sy, Cut(v, a, Origin(v, a) + upTo))
  {
    hide Apart;
    var zs, sz := xs + ys, sx + sy;
    forall i | 0 <= i < |zs| ensures AtLeast(zs[i], sz[i]) && Inside(zs[i], Cut(v, a, Origin(v, a) + upTo)) {
      if i < |xs| {
        assert AtLeast(xs[i], sx[i]) && Inside(xs[i], Cut(v, a, Origin(v, a) + from));
      } else {
        assert AtLeast(ys[i - |xs|], sy[i - |xs|]) && Inside(ys[i - |xs|], b);
      }
    }
    forall i, j | 0 <= i < j < |zs| ensures Apart(zs[i], zs[j]) {
      if j < |xs| {
        assert Apart(xs[i], xs[j]);
      } else if i >= |xs| {
        assert Apart(ys[i - |xs|], ys[j - |xs|]);
      } else {
        CutApart(v, a, from, b, xs[i], ys[j - |xs|]);
      }
    }
  }

  lemma CutApart(v: bool, a: Area, from: int, b: Area, p: Area, q: Area)
    requires Inside(p, Cut(v, a, Origin(v, a) + from)) && Inside(q, b) && Origin(v, a) + from <= Origin(v, b)
    ensures Apart(p, q)
  {
  }

  /**
   A layout given at least its minimum size gives every leaf at any depth at
   least its own minimum, inside the area, with no two leaves overlapping.
   */
  lemma {:induction false} LayoutIsSound(l: Layout, a: Area)
    requires AtLeast(a, MinSize(l))
    ensures Sound(Areas(l, a), LeafSizes(l), a)
    decreases l
  {
    match l
    case Leaf(_) =>
    case Box(v, cs) =>
      UpToIsSound(v, cs, a, |cs|);
      var ts := TracksOf(v, cs);
      MinOfBox(v, cs, a);
      UnitsAreEnough(ts, Longest(ts), Extent(v, a));
      SoundInLarger(Areas(l, a), LeafSizes(l), v, a, Origin(v, a) + Offset(ts, UnitLen(ts, Extent(v, a)), |cs|));
  }

  lemma SoundInLarger(areas: seq<Area>, sizes: seq<Size>, v: bool, a: Area, upTo: int)
    requires Sound(areas, sizes, Cut(v, a, upTo)) && upTo <= Origin(v, a) + Extent(v, a)
    ensures Sound(areas, sizes, a)
  {
    hide Apart;
  }

  // ---- The program ----

  /** The sums and maxima after one more child. */
  lemma OneMoreChild(v: bool, cs: seq<BoxChild>, i: nat)
    requires i < |cs|
    ensures Fixed(TracksOf(v, cs[..i + 1]))
         == Fixed(TracksOf(v, cs[..i])) + (if cs[i].proportion == 0 then Outer(v, cs[i]) else 0)
    ensures Units(TracksOf(v, cs[..i + 1])) == Units(TracksOf(v, cs[..i])) + cs[i].proportion
    ensures Longest(TracksOf(v, cs[..i + 1])) ==
      if cs[i].proportion != 0 && Outer(v, cs[i]) > Longest(TracksOf(v, cs[..i])) then Outer(v, cs[i])
      else Longest(TracksOf(v, cs[..i]))
    ensures Widest(!v, cs[..i + 1]) ==
      if Outer(!v, cs[i]) > Widest(!v, cs[..i]) then Outer(!v, cs[i]) else Widest(!v, cs[..i])
  {
    hide MinSize, Outer;
    assert cs[..i + 1][..i] == cs[..i];
    var us := TracksOf(v, cs[..i + 1]);
    assert us[..i] == TracksOf(v, cs[..i]);
  }

  lemma NoChild(v: bool, cs: seq<BoxChild>)
    ensures TracksOf(v, cs[..0]) == [] && Fixed([]) == 0 && Units([]) == 0 && Longest([]) == 0
    ensures Widest(!v, cs[..0]) == 0
  {
  }

  lemma MinOfAll(v: bool, cs: seq<BoxChild>)
    ensures cs[..|cs|] == cs
    ensures var ts := TracksOf(v, cs);
      var main := Fixed(ts) + Longest(ts) * Units(ts);
      MinSize(Box(v, cs)) == if v then Size(Widest(!v, cs), main) else Size(main, Widest(!v, cs))
  {
  }

  lemma OuterIs(c: BoxChild, s: Size)
    requires s == MinSize(c.layout)
    ensures Outer(false, c) == s.width + (if c.left then c.border else 0) + (if c.right then c.border else 0)
    ensures Outer(true, c) == s.height + (if c.up then c.border else 0) + (if c.down then c.border else 0)
  {
  }

  /** The minimum size of a child with its borders, as the array of its two lengths. */
  method GetSubdims(child: BoxChild) returns (subdims: array<nat>)
    ensures fresh(subdims) && subdims.Length == 2
    ensures subdims[0] == Outer(false, child) && subdims[1] == Outer(true, child)
    decreases child
  {
    hide *;
    var sub := GetMinSize(child.layout);
    OuterIs(child, sub);
    subdims := new nat[2];
    subdims[0], subdims[1] := sub.width, sub.height;
    if child.left { subdims[0] := subdims[0] + child.border; }
    if child.right { subdims[0] := subdims[0] + child.border; }
    if child.up { subdims[1] := subdims[1] + child.border; }
    if child.down { subdims[1] := subdims[1] + child.border; }
  }

  /** getMinSize of a layout. */
  method GetMinSize(l: Layout) returns (s: Size)
    ensures s == MinSize(l)
    decreases l
  {
    match l
    case Leaf(size) => return size;
    case Box(v, cs) => s := BoxMinSize(v, cs);
  }

  /** gwmBoxMinSize. */
  method BoxMinSize(v: bool, cs: seq<BoxChild>) returns (s: Size)
    ensures s == MinSize(Box(v, cs))
    decreases cs
  {
    hide *;
    var dims := new nat[2];
    var mainAxis, otherAxis := if v then 1 else 0, if v then 0 else 1;
    dims[0], dims[1] := 0, 0;
    var otherLeftoverMax, units := 0, 0;
    NoChild(v, cs);
    for i := 0 to |cs|
      invariant units == Units(TracksOf(v, cs[..i]))
      invariant dims[mainAxis] == Fixed(TracksOf(v, cs[..i])) && otherLeftoverMax == Longest(TracksOf(v, cs[..i]))
      invariant dims[otherAxis] == Widest(!v, cs[..i])
    {
      var child := cs[i];
      var subdims := GetSubdims(child);
      OneMoreChild(v, cs, i);
      assert subdims[mainAxis] == Outer(v, child) && subdims[otherAxis] == Outer(!v, child);
      if child.proportion != 0 {
        units := units + child.proportion;
        if dims[otherAxis] < subdims[otherAxis] { dims[otherAxis] := subdims[otherAxis]; }
        if otherLeftoverMax < subdims[mainAxis] { otherLeftoverMax := subdims[mainAxis]; }
        continue;
      }
      dims[mainAxis] := dims[mainAxis] + subdims[mainAxis];
      if dims[otherAxis] < subdims[otherAxis] { dims[otherAxis] := subdims[otherAxis]; }
    }
    MinOfAll(v, cs);
    dims[mainAxis] := dims[mainAxis] + otherLeftoverMax * units;
    s := Size(dims[0], dims[1]);
  }

  lemma AreaIs(v: bool, cs: seq<BoxChild>, a: Area, i: nat, unit: int, offset: int, len: int, otherLen: int)
    requires i < |cs| && unit == UnitLen(TracksOf(v, cs), Extent(v, a)) && offset == Offset(TracksOf(v, cs), unit, i)
    requires len == if cs[i].proportion == 0 then Outer(v, cs[i]) else cs[i].proportion * unit
    requires otherLen == if cs[i].fill then Extent(!v, a) else Outer(!v, cs[i])
    ensures Offset(TracksOf(v, cs), unit, i + 1) == offset + len
    ensures ChildArea(v, cs, a, i) ==
      PlacedIn(v, cs[i], Origin(v, a) + offset, len, TruncDiv(Extent(!v, a) - otherLen, 2) + Origin(!v, a), otherLen)
  {
    hide TracksOf, Outer, UnitLen, TruncDiv, Lead, Trail;
    TrackAt(v, cs, i);
    NextOffset(TracksOf(v, cs), unit, i);
  }

  lemma Axes(v: bool, a: Area)
    ensures Origin(v, a) == if v then a.y else a.x
    ensures Origin(!v, a) == if v then a.x else a.y
    ensures Extent(v, a) == if v then a.height else a.width
    ensures Extent(!v, a) == if v then a.width else a.height
  {
  }

  lemma AreasMore(v: bool, cs: seq<BoxChild>, a: Area, i: nat)
    requires i < |cs|
    ensures AreasUpTo(v, cs, a, i + 1) == AreasUpTo(v, cs, a, i) + Areas(cs[i].layout, ChildArea(v, cs, a, i))
    ensures AreasUpTo(v, cs, a, 0) == []
  {
    hide ChildArea;
  }

  lemma AreasOfBox(v: bool, cs: seq<BoxChild>, a: Area)
    ensures Areas(Box(v, cs), a) == AreasUpTo(v, cs, a, |cs|) && AreasUpTo(v, cs, a, 0) == []
  {
    hide ChildArea;
  }

  /** The first pass of gwmBoxRun over one child: its lengths with borders. */
  method MeasureChild(v: bool, child: BoxChild) returns (len: nat, otherLen: nat)
    ensures len == Outer(v, child) && otherLen == Outer(!v, child)
  {
    hide *;
    var min := GetMinSize(child.layout);
    OuterIs(child, min);
    if v {
      len := min.height;
      if child.up { len := len + child.border; }
      if child.down { len := len + child.border; }
      otherLen := min.width;
      if child.left { otherLen := otherLen + child.border; }
      if child.right { otherLen := otherLen + child.border; }
    } else {
      len := min.width;
      if child.left { len := len + child.border; }
      if child.right { len := len + child.border; }
      otherLen := min.height;
      if child.up { otherLen := otherLen + child.border; }
      if child.down { otherLen := otherLen + child.border; }
    }
  }

  /** The second pass over one child: its area less its borders. */
  method PlaceChild(v: bool, child: BoxChild, main: int, len: int, other: int, otherDim: int, otherLen0: int)
    returns (area: Area)
    ensures area == PlacedIn(v, child, main, len, TruncDiv(otherDim - otherLen0, 2) + other, otherLen0)
  {
    hide TruncDiv;
    var mainLen, otherLen := len, otherLen0;
    var mainOffset := main;
    var otherOffset := TruncDiv(otherDim - otherLen, 2) + other;
    if v {
      if child.up { mainOffset := mainOffset + child.border; mainLen := mainLen - child.border; }
      if child.down { mainLen := mainLen - child.border; }
      if child.left { otherOffset := otherOffset + child.border; otherLen := otherLen - child.border; }
      if child.right { otherLen := otherLen - child.border; }
    } else {
      if child.left { mainOffset := mainOffset + child.border; mainLen := mainLen - child.border; }
      if child.right { mainLen := mainLen - child.border; }
      if child.up { otherOffset := otherOffset + child.border; otherLen := otherLen - child.border; }
      if child.down { otherLen := otherLen - child.border; }
    }
    area := if v then Area(otherOffset, mainOffset, otherLen, mainLen)
            else Area(mainOffset, otherOffset, mainLen, otherLen);
  }

  /** run of a layout, with the areas its leaves get. */
  method Run(l: Layout, a: Area) returns (areas: seq<Area>)
    ensures areas == Areas(l, a)
    decreases l
  {
    match l
    case Leaf(_) => return [a];
    case Box(v, cs) => areas := BoxRun(v, cs, a);
  }

  /** gwmBoxRun: a first pass for the fixed lengths and the units. */
  method BoxRun(v: bool, cs: seq<BoxChild>, a: Area) returns (areas: seq<Area>)
    ensures areas == Areas(Box(v, cs), a)
    decreases cs, 1
  {
    hide *;
    var totalFixed, units := 0, 0;
    var lens, otherLens := [], [];
    NoChild(v, cs);
    for i := 0 to |cs|
      invariant |lens| == |otherLens| == i
      invariant forall k :: 0 <= k < i ==> lens[k] == Outer(v, cs[k]) && otherLens[k] == Outer(!v, cs[k])
      invariant totalFixed == Fixed(TracksOf(v, cs[..i])) && units == Units(TracksOf(v, cs[..i]))
    {
      var child := cs[i];
      var len, otherLen := MeasureChild(v, child);
      OneMoreChild(v, cs, i);
      lens, otherLens := lens + [len], otherLens + [otherLen];
      if child.proportion == 0 { totalFixed := totalFixed + len; } else { units := units + child.proportion; }
    }
    assert cs[..|cs|] == cs;
    areas := LayOut(v, cs, a, totalFixed, units, lens, otherLens);
    AreasOfBox(v, cs, a);
  }

  /** The second pass of gwmBoxRun. */
  method LayOut(v: bool, cs: seq<BoxChild>, a: Area, totalFixed: nat, units: nat, lens: seq<nat>, otherLens: seq<nat>)
    returns (areas: seq<Area>)
    requires |lens| == |otherLens| == |cs|
    requires forall k :: 0 <= k < |cs| ==> lens[k] == Outer(v, cs[k]) && otherLens[k] == Outer(!v, cs[k])
    requires totalFixed == Fixed(TracksOf(v, cs)) && units == Units(TracksOf(v, cs))
    ensures areas == AreasUpTo(v, cs, a, |cs|)
    decreases cs, 0
  {
    hide *;
    ghost var ts := TracksOf(v, cs);
    Axes(v, a);
    var leftover := (if v then a.height else a.width) - totalFixed;
    var unitLen := if units != 0 then TruncDiv(leftover, units) else 0;
    UnitLenIs(ts, Extent(v, a));
    AreasOfBox(v, cs, a);
    areas := [];
    var main := if v then a.y else a.x;
    var other := if v then a.x else a.y;
    var otherDim := if v then a.width else a.height;
    for i := 0 to |cs|
      invariant main == Origin(v, a) + Offset(ts, unitLen, i)
      invariant areas == AreasUpTo(v, cs, a, i)
    {
      var child := cs[i];
      var len := if child.proportion == 0 then lens[i] else child.proportion * unitLen;
      var otherLen := if child.fill then otherDim else otherLens[i];
      AreaIs(v, cs, a, i, unitLen, main - Origin(v, a), len, otherLen);
      AreasMore(v, cs, a, i);
      var area := PlaceChild(v, child, main, len, other, otherDim, otherLen);
      var sub := RunChild(child, area);
      areas := areas + sub;
      main := main + len;
    }
  }

  method RunChild(child: BoxChild, area: Area) returns (areas: seq<Area>)
    ensures areas == Areas(child.layout, area)
    decreases child
  {
    areas := Run(child.layout, area);
  }
}
