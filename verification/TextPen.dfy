/**
 How the pen of libddi cuts a text into segments (libddi/libddi.c:1044-1370):
 where a line is broken, what is skipped at the break, and which character
 numbers each segment carries. Glyph metrics are a parameter; pixels are left out.
 */
module TextPen {
  import opened CArith
  import opened LinkedLists
  import opened Utf8

  /** The metrics that place a glyph, in pixels. */
  datatype Glyph = Glyph(left: int, top: int, advance: int, drop: int, height: int)

  /** What a pen does not change while it writes. */
  datatype Style = Style(glyph: nat -> Glyph, mask: nat, wrap: bool, width: int, letterSpacing: int)

  datatype Extents = Extents(penX: int, penY: int, minX: int, maxX: int, minY: int, maxY: int)
  {
    function Width(): int { maxX - minX }
    function Height(): int { maxY - minY }
    function OffX(): int { if minX < 0 then -minX else 0 }
    function OffY(): int { if minY < 0 then -minY else 0 }
  }

  /** The result of measuring a segment: `next` is where it ends, None at the end of the text. */
  datatype Stop = Stop(next: Option<nat>, inclusive: bool, width: int, height: int, offX: int, offY: int, advance: int)

  datatype Segment = Segment(first: nat, widths: seq<int>, width: int, advance: int)

  datatype Line = Line(segments: seq<Segment>, currentWidth: int)

  const NO_EXTENTS := Extents(0, 0, 0, 0, 0, 0)

  function Shown(st: Style, cp: nat): nat {
    if st.mask == 1 then 0x25CF else if st.mask != 0 then st.mask else cp
  }

  predicate IsExclusiveBreak(point: nat) { point == 0x20 || point == 9 }

  /** One of - _ / . and , */
  predicate IsInclusiveBreak(point: nat) {
    point == 0x2D || point == 0x5F || point == 0x2F || point == 0x2E || point == 0x2C
  }

  predicate IsNewline(point: nat) { point == 10 }

  /** A character that may be left out at the end of a line. */
  predicate IsSkippable(point: nat) { IsExclusiveBreak(point) || IsNewline(point) }

  /** Tab stops are 64 pixels apart. */
  function NextTab(penX: int): int { TruncDiv(penX, 64) * 64 + 64 }

  function Max(a: int, b: int): int { if a > b then a else b }

  function Min(a: int, b: int): int { if a < b then a else b }

  function Advance(st: Style, e: Extents, point: nat): Extents {
    if point == 9 then
      e.(penX := NextTab(e.penX), maxX := Max(e.maxX, NextTab(e.penX)))
    else
      var g := st.glyph(point);
      var left, top := e.penX + g.left, e.penY - g.top;
      Extents(e.penX + g.advance + st.letterSpacing, e.penY + g.drop,
              Min(e.minX, left), Max(e.maxX, left + g.advance + st.letterSpacing),
              Min(e.minY, top), Max(e.maxY, top + g.height))
  }

  /** The extents of characters j to k - 1 drawn from the origin. */
  ghost function Measure(st: Style, cps: seq<CodePoint>, j: nat, k: nat): Extents
    requires j <= k <= |cps|
  {
    if k == j then NO_EXTENTS else Advance(st, Measure(st, cps, j, k - 1), Shown(st, cps[k - 1]))
  }

  // ---- What a character does to the pen ----

  /** The mask 1 stands for a bullet, another one for itself, and none leaves the characters as they are. */
  lemma MaskShown(st: Style, cp: nat)
    ensures Shown(st, cp) ==
      match st.mask
      case 0 => cp
      case 1 => 0x25CF
      case m => m
  {
  }

  /** Blanks are left out at a break, and after each of five signs a line may be broken. */
  lemma BreakCharacters(c: nat)
    ensures IsExclusiveBreak(c) <==> c == ' ' as nat || c == '\t' as nat
    ensures IsInclusiveBreak(c) <==>
      c == '-' as nat || c == '_' as nat || c == '/' as nat || c == '.' as nat || c == ',' as nat
    ensures IsNewline(c) <==> c == '\n' as nat
  {
  }

  /** A tab goes to the next multiple of 64, and draws nothing. */
  lemma TabAdvances(st: Style, e: Extents)
    requires e.penX >= 0
    ensures var a := Advance(st, e, '\t' as nat);
      && e.penX < a.penX <= e.penX + 64 && a.penX % 64 == 0
      && a == e.(penX := a.penX, maxX := a.maxX) && (a.maxX == e.maxX || a.maxX == a.penX)
      && a.maxX >= e.maxX && a.maxX >= a.penX
  {
  }

  /** The box of a glyph, with the letter spacing behind it. */
  datatype Box = Box(left: int, right: int, top: int, bottom: int)

  function BoxOf(st: Style, e: Extents, c: nat): Box {
    var g := st.glyph(c);
    Box(e.penX + g.left, e.penX + g.left + g.advance + st.letterSpacing, e.penY - g.top, e.penY - g.top + g.height)
  }

  /**
   Any other character moves the pen on by the glyph's advance and the letter spacing,
   and the extents to the smallest that hold them and the glyph.
   */
  lemma CharacterAdvances(st: Style, e: Extents, c: nat, m: Box)
    requires c != '\t' as nat
    ensures var g, a, b := st.glyph(c), Advance(st, e, c), BoxOf(st, e, c);
      && a.penX == e.penX + g.advance + st.letterSpacing && a.penY == e.penY + g.drop
      && a.minX <= b.left && b.right <= a.maxX && a.minY <= b.top && b.bottom <= a.maxY
      && a.minX <= e.minX && e.maxX <= a.maxX && a.minY <= e.minY && e.maxY <= a.maxY
    ensures var a, b := Advance(st, e, c), BoxOf(st, e, c);
      && m.left <= b.left && b.right <= m.right && m.top <= b.top && b.bottom <= m.bottom
      && m.left <= e.minX && e.maxX <= m.right && m.top <= e.minY && e.maxY <= m.bottom
      ==> m.left <= a.minX && a.maxX <= m.right && m.top <= a.minY && a.maxY <= m.bottom
  {
  }

  // ---- Where a segment that starts at j ends ----

  ghost predicate Overflows(st: Style, lw: int, cps: seq<CodePoint>, j: nat, k: nat)
    requires j <= k < |cps|
  {
    st.wrap && k > j && lw + Measure(st, cps, j, k + 1).Width() > st.width
  }

  ghost predicate StopsAt(st: Style, lw: int, cps: seq<CodePoint>, j: nat, k: nat)
    requires j <= k < |cps|
  {
    IsNewline(Shown(st, cps[k])) || Overflows(st, lw, cps, j, k)
  }

  /** The first character from k on at which the measuring stops; the end of the text if none does. */
  ghost function Halt(st: Style, lw: int, cps: seq<CodePoint>, j: nat, k: nat): (h: nat)
    requires j <= k <= |cps|
    ensures k <= h <= |cps|
    ensures forall i :: k <= i < h ==> !StopsAt(st, lw, cps, j, i)
    ensures h < |cps| ==> StopsAt(st, lw, cps, j, h)
    decreases |cps| - k
  {
    if k == |cps| || StopsAt(st, lw, cps, j, k) then k else Halt(st, lw, cps, j, k + 1)
  }

  ghost predicate Breaks(st: Style, cps: seq<CodePoint>, j: nat, m: nat)
    requires j <= m < |cps|
  {
    IsExclusiveBreak(Shown(st, cps[m])) || (m > j && IsInclusiveBreak(Shown(st, cps[m])))
  }

  /** The last place before k where the line may be broken. */
  ghost function LastBreak(st: Style, cps: seq<CodePoint>, j: nat, k: nat): (r: Option<nat>)
    requires j <= k <= |cps|
    ensures r.Some? ==> j <= r.value < k && Breaks(st, cps, j, r.value)
    ensures forall i :: (if r.Some? then r.value + 1 else j) <= i < k ==> !Breaks(st, cps, j, i)
    decreases k
  {
    if k == j then None
    else if Breaks(st, cps, j, k - 1) then Some(k - 1)
    else LastBreak(st, cps, j, k - 1)
  }

  /** An inclusive break was seen after the first character and before k. */
  ghost predicate SawInclusive(st: Style, cps: seq<CodePoint>, j: nat, k: nat)
    requires j <= k <= |cps|
  {
    exists m :: j < m < k && IsInclusiveBreak(Shown(st, cps[m]))
  }

  function StopAt(next: Option<nat>, inclusive: bool, e: Extents, penX: int): Stop {
    Stop(next, inclusive, e.Width(), e.Height(), e.OffX(), e.OffY(), penX)
  }

  /** The measured segment: as Stop, with a character number for its end. */
  ghost function Outcome(st: Style, lw: int, cps: seq<CodePoint>, j: nat): Stop
    requires j <= |cps|
  {
    var h := Halt(st, lw, cps, j, j);
    if h == |cps| then StopAt(None, false, Measure(st, cps, j, h), Measure(st, cps, j, h).penX)
    else if IsNewline(Shown(st, cps[h])) then
      StopAt(Some(h), false, Measure(st, cps, j, h), Measure(st, cps, j, h).penX)
    else
      var penX := Measure(st, cps, j, h + 1).penX;
      match LastBreak(st, cps, j, h + 1)
      case None => StopAt(Some(h), true, Measure(st, cps, j, h + 1), penX)
      case Some(m) => StopAt(Some(m), SawInclusive(st, cps, j, h + 1), Measure(st, cps, j, m), penX)
  }

  /**
   A segment never ends where nothing was consumed: with `inclusive` its end lies
   after its start, and without it the character at its end is skipped.
   */
  lemma Progress(st: Style, lw: int, cps: seq<CodePoint>, j: nat)
    requires j <= |cps|
    ensures var o := Outcome(st, lw, cps, j);
      o.next.Some? ==>
        && j <= o.next.value < |cps|
        && (o.inclusive ==> j < o.next.value)
        && (!o.inclusive ==> IsSkippable(Shown(st, cps[o.next.value])))
  {
    hide Measure;
    var h := Halt(st, lw, cps, j, j);
    if h < |cps| && !IsNewline(Shown(st, cps[h])) {
      var b := LastBreak(st, cps, j, h + 1);
      if b.Some? && SawInclusive(st, cps, j, h + 1) {
        var m :| j < m < h + 1 && IsInclusiveBreak(Shown(st, cps[m]));
        assert Breaks(st, cps, j, m);
      }
    }
  }

  /**
   Where a segment ends and what is reported of it: everything if nothing stops it; the
   characters before a newline, which is left out; or, at the first character that does
   not fit, those before the last place to break at, or before it if there is none. The
   end itself belongs to the next line if one of the five signs was seen, and is left out
   otherwise. The advance is that of all characters measured.
   */
  lemma SegmentEnds(st: Style, lw: int, cps: seq<CodePoint>, j: nat)
    requires j <= |cps|
    ensures
      var o := Outcome(st, lw, cps, j);
      var h := Halt(st, lw, cps, j, j);
      var cut := h < |cps| && Shown(st, cps[h]) != '\n' as nat;
      var last := if cut then LastBreak(st, cps, j, h + 1) else None;
      var drawn := if last.Some? then last.value else h;
      var e := Measure(st, cps, j, if cut && last == None then h + 1 else drawn);
      && o.next == (if h == |cps| then None else Some(drawn))
      && (o.inclusive <==>
            (cut && (last == None || exists m :: j < m <= h && IsInclusiveBreak(Shown(st, cps[m])))))
      && o.width == e.maxX - e.minX && o.height == e.maxY - e.minY
      && o.offX == (if e.minX < 0 then -e.minX else 0) && o.offY == (if e.minY < 0 then -e.minY else 0)
      && o.advance == Measure(st, cps, j, if cut then h + 1 else h).penX
  {
    hide Measure;
  }

  /** One pass of the pen: characters `from` to `upTo` - 1 are drawn, one more may be skipped. */
  datatype Pass = Pass(from: nat, upTo: nat, skip: bool)
  {
    function End(): nat { if skip then upTo + 1 else upTo }
  }

  ghost function Passes(st: Style, lw: int, cps: seq<CodePoint>, j: nat): (ps: seq<Pass>)
    requires j <= |cps|
    ensures |ps| > 0
    decreases |cps| - j
  {
    Progress(st, lw, cps, j);
    var o := Outcome(st, lw, cps, j);
    if o.next == None then [Pass(j, |cps|, false)]
    else
      var p := Pass(j, o.next.value, !o.inclusive);
      [p] + Passes(st, 0, cps, p.End())
  }

  /** The first pass, and the passes behind it. */
  lemma PassesStep(st: Style, lw: int, cps: seq<CodePoint>, j: nat)
    requires j <= |cps|
    ensures var ps, o := Passes(st, lw, cps, j), Outcome(st, lw, cps, j);
      if o.next == None then ps == [Pass(j, |cps|, false)]
      else
        var p := Pass(j, o.next.value, !o.inclusive);
        && j < p.End() <= |cps|
        && ps == [p] + Passes(st, 0, cps, p.End())
        && ps[0] == p
        && var rest := Passes(st, 0, cps, p.End());
        forall i :: 1 <= i < |ps| ==> i - 1 < |rest| && ps[i] == rest[i - 1]
  {
    hide Outcome;
    Progress(st, lw, cps, j);
  }

  /**
   Nothing is lost and nothing is written twice: the passes follow each other
   and cover the text from its first character to its last.
   */
  lemma {:induction false} PassesCover(st: Style, lw: int, cps: seq<CodePoint>, j: nat)
    requires j <= |cps|
    ensures var ps := Passes(st, lw, cps, j);
      && ps[0].from == j && ps[|ps| - 1].End() == |cps| && !ps[|ps| - 1].skip
      && (forall i :: 0 <= i < |ps| ==> ps[i].from <= ps[i].upTo <= ps[i].End() <= |cps|)
      && (forall i :: 0 <= i < |ps| - 1 ==> ps[i].from < ps[i].End() == ps[i + 1].from)
    decreases |cps| - j
  {
    hide Outcome, Measure, Passes;
    Progress(st, lw, cps, j);
    PassesStep(st, lw, cps, j);
    var o := Outcome(st, lw, cps, j);
    if o.next.Some? {
      var p := Pass(j, o.next.value, !o.inclusive);
      PassesCover(st, 0, cps, p.End());
    }
  }

  /** The width of the line before pass i. */
  function LineWidthBefore(lw: int, i: nat): int { if i == 0 then lw else 0 }

  lemma {:induction false} PassIsOutcome(st: Style, lw: int, cps: seq<CodePoint>, j: nat, i: nat)
    requires j <= |cps| && i < |Passes(st, lw, cps, j)|
    ensures var p := Passes(st, lw, cps, j)[i];
      && p.from <= |cps|
      && var o := Outcome(st, LineWidthBefore(lw, i), cps, p.from);
      if o.next == None then p == Pass(p.from, |cps|, false) && i == |Passes(st, lw, cps, j)| - 1
      else p == Pass(p.from, o.next.value, !o.inclusive) && i < |Passes(st, lw, cps, j)| - 1
    decreases |cps| - j
  {
    hide Outcome, Measure, Passes;
    Progress(st, lw, cps, j);
    PassesStep(st, lw, cps, j);
    var o := Outcome(st, lw, cps, j);
    if o.next.Some? && i > 0 {
      PassIsOutcome(st, 0, cps, Pass(j, o.next.value, !o.inclusive).End(), i - 1);
    }
  }

  /** No line break is drawn, and what is skipped is a blank or a line break. */
  lemma NewlinesEndLines(st: Style, lw: int, cps: seq<CodePoint>, i: nat)
    requires i < |Passes(st, lw, cps, 0)|
    ensures var p := Passes(st, lw, cps, 0)[i];
      && p.from <= p.upTo <= |cps|
      && (forall c :: p.from <= c < p.upTo ==> !IsNewline(Shown(st, cps[c])))
      && (p.skip ==> p.upTo < |cps| && IsSkippable(Shown(st, cps[p.upTo])))
  {
    hide Measure;
    PassIsOutcome(st, lw, cps, 0, i);
    var p := Passes(st, lw, cps, 0)[i];
    var w := LineWidthBefore(lw, i);
    Progress(st, w, cps, p.from);
    var h := Halt(st, w, cps, p.from, p.from);
    forall c | p.from <= c < p.upTo ensures !IsNewline(Shown(st, cps[c])) {
      assert !StopsAt(st, w, cps, p.from, c);
    }
  }

  /** Without wrapping the segments are exactly the stretches between line breaks. */
  lemma UnwrappedLines(st: Style, lw: int, cps: seq<CodePoint>, i: nat)
    requires !st.wrap && i < |Passes(st, lw, cps, 0)|
    ensures var p := Passes(st, lw, cps, 0)[i];
      && p.from <= p.upTo <= |cps|
      && (p.skip <==> p.upTo < |cps|) && (p.skip <==> i < |Passes(st, lw, cps, 0)| - 1)
      && (p.skip ==> IsNewline(Shown(st, cps[p.upTo])))
  {
    hide Measure;
    PassIsOutcome(st, lw, cps, 0, i);
    var p := Passes(st, lw, cps, 0)[i];
    var h := Halt(st, LineWidthBefore(lw, i), cps, p.from, p.from);
  }

  /**
   With wrapping a segment of two or more characters fits the rest of its line.
   (The first character is placed however wide it is.)
   */
  lemma WrappedFits(st: Style, lw: int, cps: seq<CodePoint>, i: nat)
    requires st.wrap && i < |Passes(st, lw, cps, 0)|
    ensures var p := Passes(st, lw, cps, 0)[i];
      && p.from <= p.upTo <= |cps|
      && (p.upTo >= p.from + 2 ==>
            LineWidthBefore(lw, i) + Measure(st, cps, p.from, p.upTo).Width() <= st.width)
  {
    hide Measure;
    PassIsOutcome(st, lw, cps, 0, i);
    var p := Passes(st, lw, cps, 0)[i];
    var w := LineWidthBefore(lw, i);
    Progress(st, w, cps, p.from);
    var h := Halt(st, w, cps, p.from, p.from);
    if p.upTo >= p.from + 2 {
      assert !StopsAt(st, w, cps, p.from, p.upTo - 1);
    }
  }

  /**
   The measuring stops at a character that does not fit, and neither that nor one
   before it in the segment is a place to break at.
   */
  ghost predicate CutsWord(st: Style, lw: int, cps: seq<CodePoint>, j: nat)
    requires j <= |cps|
  {
    var h := Halt(st, lw, cps, j, j);
    h < |cps| && !IsNewline(Shown(st, cps[h])) && LastBreak(st, cps, j, h + 1) == None
  }

  /** The end of the characters drawn. */
  function Drawn(o: Stop, cps: seq<CodePoint>): nat { if o.next.Some? then o.next.value else |cps| }

  /**
   Exactly then a word is cut in two: the segment ends before a character that is
   no place to break at and is not skipped. The width reported is that of the
   characters drawn exactly unless a word is cut and its next character, which the
   measuring has counted, makes a difference; it is too wide for the line then.
   */
  lemma WordsStayWhole(st: Style, lw: int, cps: seq<CodePoint>, j: nat)
    requires j <= |cps|
    ensures var o := Outcome(st, lw, cps, j);
      var h := Halt(st, lw, cps, j, j);
      && j <= Drawn(o, cps) <= |cps|
      && (CutsWord(st, lw, cps, j) <==> o.next.Some? && o.inclusive && !Breaks(st, cps, j, o.next.value))
      && (o.width != Measure(st, cps, j, Drawn(o, cps)).Width() <==>
            CutsWord(st, lw, cps, j) && Measure(st, cps, j, h + 1).Width() != Measure(st, cps, j, h).Width())
      && (CutsWord(st, lw, cps, j) ==> Drawn(o, cps) == h && lw + o.width > st.width)
  {
    hide Measure;
    Progress(st, lw, cps, j);
    var h := Halt(st, lw, cps, j, j);
    if h < |cps| && !IsNewline(Shown(st, cps[h])) {
      var b := LastBreak(st, cps, j, h + 1);
    }
  }

  /** For instance two letters of width 10 on a line of width 15: one is drawn, and width 20 reported. */
  lemma CutWordIsTooWide()
    ensures
      var st := Style(_ => Glyph(0, 0, 10, 0, 10), 0, true, 15, 0);
      var cps: seq<CodePoint> := ['a' as int, 'b' as int];
      var o := Outcome(st, 0, cps, 0);
      && CutsWord(st, 0, cps, 0) && Drawn(o, cps) == 1
      && Measure(st, cps, 0, 1).Width() == 10 && o.width == 20
  {
    var st := Style(_ => Glyph(0, 0, 10, 0, 10), 0, true, 15, 0);
    var cps: seq<CodePoint> := ['a' as int, 'b' as int];
    TwoLetters(st, cps);
    WordsStayWhole(st, 0, cps, 0);
  }

  lemma TwoLetters(st: Style, cps: seq<CodePoint>)
    requires st.mask == 0 && st.wrap && st.width == 15 && st.letterSpacing == 0
    requires cps == ['a' as int, 'b' as int] && forall c :: st.glyph(c) == Glyph(0, 0, 10, 0, 10)
    ensures Measure(st, cps, 0, 1).Width() == 10 && Measure(st, cps, 0, 2).Width() == 20
    ensures Halt(st, 0, cps, 0, 0) == 1 && LastBreak(st, cps, 0, 2) == None
  {
    hide Measure, Advance, LastBreak;
    NextMeasure(st, cps, 0, 0);
    NextMeasure(st, cps, 0, 1);
    TenWider(st, Measure(st, cps, 0, 0), 'a' as int);
    TenWider(st, Measure(st, cps, 0, 1), 'b' as int);
    assert !StopsAt(st, 0, cps, 0, 0) && StopsAt(st, 0, cps, 0, 1);
    assert Halt(st, 0, cps, 0, 0) == Halt(st, 0, cps, 0, 1);
    NoBreakAmongLetters(st, cps);
  }

  lemma NextMeasure(st: Style, cps: seq<CodePoint>, j: nat, k: nat)
    requires j <= k < |cps|
    ensures Measure(st, cps, j, j) == NO_EXTENTS
    ensures Measure(st, cps, j, k + 1) == Advance(st, Measure(st, cps, j, k), Shown(st, cps[k]))
  {
  }

  lemma TenWider(st: Style, e: Extents, c: nat)
    requires c != 9 && st.letterSpacing == 0 && st.glyph(c) == Glyph(0, 0, 10, 0, 10)
    requires 0 <= e.penX == e.maxX && e.minX == 0
    ensures var a := Advance(st, e, c); a.penX == a.maxX == e.penX + 10 && a.minX == 0
  {
  }

  lemma NoBreakAmongLetters(st: Style, cps: seq<CodePoint>)
    requires st.mask == 0 && cps == ['a' as int, 'b' as int]
    ensures LastBreak(st, cps, 0, 2) == None
  {
    assert !Breaks(st, cps, 0, 0) && !Breaks(st, cps, 0, 1);
    assert LastBreak(st, cps, 0, 1) == None;
  }

  // ---- The pen itself ----

  /** `o` with byte offsets in place of character numbers. */
  ghost function Located(o: Stop, str: nat, cps: seq<CodePoint>): Stop
    requires o.next.Some? ==> o.next.value <= |cps|
  {
    if o.next.Some? then o.(next := Some(str + Off(cps, o.next.value))) else o
  }

  // What each step of the measuring loop means.

  lemma NoneYet(st: Style, str: nat, cps: seq<CodePoint>, j: nat, word: Stop)
    requires j <= |cps|
    ensures Measure(st, cps, j, j) == Extents(0, 0, 0, 0, 0, 0)
    ensures !SawInclusive(st, cps, j, j) && LastWordIs(st, str, cps, j, j, None, word)
  {
  }

  lemma NextBreak(st: Style, str: nat, cps: seq<CodePoint>, j: nat, k: nat,
                  end0: Option<nat>, word0: Stop, end: Option<nat>, word: Stop)
    requires j <= k < |cps| && LastWordIs(st, str, cps, j, k, end0, word0)
    requires if Breaks(st, cps, j, k) then
               end == Some(str + Off(cps, k)) && word == StopAt(None, false, Measure(st, cps, j, k), 0)
             else end == end0 && word == word0
    ensures LastWordIs(st, str, cps, j, k + 1, end, word)
    ensures SawInclusive(st, cps, j, k + 1) <==>
            SawInclusive(st, cps, j, k) || (k > j && IsInclusiveBreak(Shown(st, cps[k])))
  {
    hide Measure, Breaks;
  }

  lemma BreaksAt(st: Style, cps: seq<CodePoint>, j: nat, k: nat)
    requires j <= k < |cps|
    ensures Breaks(st, cps, j, k) <==>
            IsExclusiveBreak(Shown(st, cps[k])) || (k > j && IsInclusiveBreak(Shown(st, cps[k])))
  {
  }

  lemma OneMore(st: Style, cps: seq<CodePoint>, j: nat, k: nat, e: Extents, f: Extents)
    requires j <= k < |cps| && Measure(st, cps, j, k) == e
    ensures Measure(st, cps, j, k + 1) == Advance(st, e, Shown(st, cps[k]))
    ensures Shown(st, cps[k]) == 9 ==> (Advance(st, e, 9) == f <==>
              && f.penX == TruncDiv(e.penX, 64) * 64 + 64 && f.maxX == Max(e.maxX, f.penX)
              && f.penY == e.penY && f.minX == e.minX && f.minY == e.minY && f.maxY == e.maxY)
    ensures Shown(st, cps[k]) != 9 ==>
      var g := st.glyph(Shown(st, cps[k]));
      Advance(st, e, Shown(st, cps[k])) ==
        Extents(e.penX + g.advance + st.letterSpacing, e.penY + g.drop,
                Min(e.minX, e.penX + g.left), Max(e.maxX, e.penX + g.left + g.advance + st.letterSpacing),
                Min(e.minY, e.penY - g.top), Max(e.maxY, e.penY - g.top + g.height))
  {
    hide TruncDiv, Max, Min;
  }

  /** The extents after k more characters are those computed; the loop goes on if nothing stops it. */
  lemma GoOn(st: Style, lw: int, cps: seq<CodePoint>, j: nat, k: nat, e: Extents)
    requires j <= k < |cps| && Halt(st, lw, cps, j, j) == Halt(st, lw, cps, j, k)
    requires !IsNewline(Shown(st, cps[k])) && Measure(st, cps, j, k + 1) == e
    requires !(lw + (e.maxX - e.minX) > st.width && st.wrap && k > j)
    ensures Halt(st, lw, cps, j, j) == Halt(st, lw, cps, j, k + 1)
  {
    hide Measure;
  }

  lemma AtEnd(st: Style, lw: int, str: nat, cps: seq<CodePoint>, j: nat, e: Extents)
    requires j <= |cps| && Halt(st, lw, cps, j, j) == Halt(st, lw, cps, j, |cps|)
    requires Measure(st, cps, j, |cps|) == e
    ensures Outcome(st, lw, cps, j).next == None
    ensures Located(Outcome(st, lw, cps, j), str, cps) == StopAt(None, false, e, e.penX)
  {
    hide Measure;
  }

  lemma AtNewline(st: Style, lw: int, str: nat, cps: seq<CodePoint>, j: nat, k: nat, e: Extents)
    requires j <= k < |cps| && Halt(st, lw, cps, j, j) == Halt(st, lw, cps, j, k)
    requires IsNewline(Shown(st, cps[k])) && Measure(st, cps, j, k) == e
    ensures Outcome(st, lw, cps, j).next == Some(k)
    ensures Located(Outcome(st, lw, cps, j), str, cps) == StopAt(Some(str + Off(cps, k)), false, e, e.penX)
  {
    hide Measure;
  }

  lemma AtOverflow(st: Style, lw: int, str: nat, cps: seq<CodePoint>, j: nat, k: nat, e: Extents,
                   end: Option<nat>, word: Stop)
    requires j <= k < |cps| && Halt(st, lw, cps, j, j) == Halt(st, lw, cps, j, k)
    requires !IsNewline(Shown(st, cps[k])) && Measure(st, cps, j, k + 1) == e
    requires lw + (e.maxX - e.minX) > st.width && st.wrap && k > j
    requires LastWordIs(st, str, cps, j, k + 1, end, word)
    ensures Outcome(st, lw, cps, j).next.Some? && Outcome(st, lw, cps, j).next.value < |cps|
    ensures Located(Outcome(st, lw, cps, j), str, cps) ==
            if end == None then StopAt(Some(str + Off(cps, k)), true, e, e.penX)
            else word.(next := end, inclusive := SawInclusive(st, cps, j, k + 1), advance := e.penX)
  {
    hide Measure, Breaks, SawInclusive;
  }

  lemma MaxMin(a: int, b: int)
    ensures Max(a, b) == if b > a then b else a
    ensures Min(a, b) == if b < a then b else a
  {
  }

  /** What the measuring loop remembers of the last place to break at. */
  ghost predicate LastWordIs(
      st: Style, str: nat, cps: seq<CodePoint>, j: nat, k: nat, end: Option<nat>, word: Stop)
    requires j <= k <= |cps|
  {
    match LastBreak(st, cps, j, k)
    case None => end == None
    case Some(m) => end == Some(str + Off(cps, m)) && word == StopAt(None, false, Measure(st, cps, j, m), 0)
  }

  /** calculateSegmentSize: text is the address of character j of the string at str. */
  method SegmentSize(st: Style, currentWidth: int, mem: seq<Byte>, text: nat,
                     ghost str: nat, ghost cps: seq<CodePoint>, ghost j: nat)
    returns (r: Stop)
    requires Spells(mem, str, cps) && j <= |cps| && text == str + Off(cps, j)
    ensures Outcome(st, currentWidth, cps, j).next.Some? ==> Outcome(st, currentWidth, cps, j).next.value < |cps|
    ensures r == Located(Outcome(st, currentWidth, cps, j), str, cps)
  {
    hide *;
    var at := text;
    var penX, penY, minX, maxX, minY, maxY := 0, 0, 0, 0, 0, 0;
    var lastWordEnd: Option<nat> := None;
    var lastWord := StopAt(None, false, Extents(0, 0, 0, 0, 0, 0), 0);
    var includeWord, writtenCharsYet := false, false;
    ghost var k := j;
    NoneYet(st, str, cps, j, lastWord);
    while true
      invariant j <= k <= |cps| && at == str + Off(cps, k)
      invariant Extents(penX, penY, minX, maxX, minY, maxY) == Measure(st, cps, j, k)
      invariant writtenCharsYet <==> k > j
      invariant includeWord <==> SawInclusive(st, cps, j, k)
      invariant Halt(st, currentWidth, cps, j, j) == Halt(st, currentWidth, cps, j, k)
      invariant LastWordIs(st, str, cps, j, k, lastWordEnd, lastWord)
      decreases |cps| - k
    {
      var chptr := at;
      ReadsAs(mem, str, cps, k);
      var cp, next := ReadUtf8(mem, at);
      at := next;
      var e := Extents(penX, penY, minX, maxX, minY, maxY);
      if cp == 0 {
        AtEnd(st, currentWidth, str, cps, j, e);
        return StopAt(None, false, e, penX);
      }
      var point := Shown(st, cp);
      ghost var end0, word0 := lastWordEnd, lastWord;
      if IsExclusiveBreak(point) {
        lastWordEnd := Some(chptr);
        lastWord := StopAt(None, false, e, 0);
      }
      if writtenCharsYet && IsInclusiveBreak(point) {
        lastWordEnd := Some(chptr);
        lastWord := StopAt(None, false, e, 0);
        includeWord := true;
      }
      BreaksAt(st, cps, j, k);
      NextBreak(st, str, cps, j, k, end0, word0, lastWordEnd, lastWord);
      if IsNewline(point) {
        AtNewline(st, currentWidth, str, cps, j, k, e);
        return StopAt(Some(chptr), false, e, penX);
      }
      if point == 9 {
        penX := TruncDiv(penX, 64) * 64 + 64;
        MaxMin(maxX, penX);
        if penX > maxX { maxX := penX; }
      } else {
        var glyph := st.glyph(point);
        var left := penX + glyph.left;
        var top := penY - glyph.top;
        MaxMin(minX, left);
        MaxMin(minY, top);
        if left < minX { minX := left; }
        if top < minY { minY := top; }
        penX := penX + glyph.advance + st.letterSpacing;
        penY := penY + glyph.drop;
        var right := left + glyph.advance + st.letterSpacing;
        var bottom := top + glyph.height;
        MaxMin(maxX, right);
        MaxMin(maxY, bottom);
        if right > maxX { maxX := right; }
        if bottom > maxY { maxY := bottom; }
      }
      var f := Extents(penX, penY, minX, maxX, minY, maxY);
      OneMore(st, cps, j, k, e, f);
      if currentWidth + (maxX - minX) > st.width && st.wrap && writtenCharsYet {
        AtOverflow(st, currentWidth, str, cps, j, k, f, lastWordEnd, lastWord);
        if lastWordEnd == None {
          return StopAt(Some(chptr), true, f, penX);
        }
        return lastWord.(next := lastWordEnd, inclusive := includeWord, advance := penX);
      }
      GoOn(st, currentWidth, cps, j, k, f);
      writtenCharsYet := true;
      k := k + 1;
    }
  }

  // ---- Writing a text ----

  /** How far each character of a segment moves the pen. */
  ghost function WidthsOf(st: Style, cps: seq<CodePoint>, from: nat, upTo: nat): (w: seq<int>)
    requires from <= upTo <= |cps|
    ensures |w| == upTo - from
  {
    if upTo == from then []
    else
      WidthsOf(st, cps, from, upTo - 1)
        + [Measure(st, cps, from, upTo).penX - Measure(st, cps, from, upTo - 1).penX]
  }

  ghost function SegmentOf(st: Style, cps: seq<CodePoint>, p: Pass, first: nat, o: Stop): Segment
    requires p.from <= p.upTo <= |cps|
  {
    Segment(first, WidthsOf(st, cps, p.from, p.upTo) + (if p.skip then [0] else []), o.width, o.advance)
  }

  /** A character moves the pen by its glyph's advance and the letter spacing, a tab to the next multiple of 64. */
  lemma {:induction false} WidthIs(st: Style, cps: seq<CodePoint>, from: nat, upTo: nat, i: nat)
    requires from <= upTo <= |cps| && i < upTo - from
    ensures
      var c, w, x := Shown(st, cps[from + i]), WidthsOf(st, cps, from, upTo)[i], Measure(st, cps, from, from + i).penX;
      && (c != '\t' as nat ==> w == st.glyph(c).advance + st.letterSpacing)
      && (c == '\t' as nat && x >= 0 ==> 0 < w <= 64 && (x + w) % 64 == 0)
    decreases upTo
  {
    if i < upTo - from - 1 { WidthIs(st, cps, from, upTo - 1, i); }
  }

  /** The widths of a segment are those of its characters, and 0 for one that is left out behind them. */
  lemma SegmentWidths(st: Style, cps: seq<CodePoint>, p: Pass, first: nat, o: Stop)
    requires p.from <= p.upTo <= |cps|
    ensures
      var s := SegmentOf(st, cps, p, first, o);
      && s.first == first && s.width == o.width && s.advance == o.advance
      && |s.widths| == p.upTo - p.from + (if p.skip then 1 else 0)
      && s.widths[..p.upTo - p.from] == WidthsOf(st, cps, p.from, p.upTo)
      && (p.skip ==> s.widths[p.upTo - p.from] == 0)
  {
  }

  /** The segments of a text from character j on, whose number in the pen is `first`. */
  ghost function Segments(st: Style, lw: int, cps: seq<CodePoint>, j: nat, first: nat): (ss: seq<Segment>)
    requires j <= |cps|
    ensures |ss| > 0
    decreases |cps| - j
  {
    Progress(st, lw, cps, j);
    var o := Outcome(st, lw, cps, j);
    if o.next == None then [SegmentOf(st, cps, Pass(j, |cps|, false), first, o)]
    else
      var p := Pass(j, o.next.value, !o.inclusive);
      [SegmentOf(st, cps, p, first, o)] + Segments(st, 0, cps, p.End(), first + p.End() - j)
  }

  lemma SegmentShape(st: Style, cps: seq<CodePoint>, p: Pass, first: nat, o: Stop)
    requires p.from <= p.upTo <= |cps|
    ensures SegmentOf(st, cps, p, first, o).first == first
    ensures |SegmentOf(st, cps, p, first, o).widths| == p.End() - p.from
  {
  }

  /** Segments that carry the numbers of the characters of their passes, the j-th being `first`. */
  ghost predicate Numbered(ss: seq<Segment>, ps: seq<Pass>, first: nat, j: nat, n: nat) {
    && |ss| == |ps| > 0 && j <= n
    && ss[0].first == first && ss[|ss| - 1].first + |ss[|ss| - 1].widths| == first + n - j
    && (forall i :: 0 <= i < |ss| ==> ss[i].first == first + ps[i].from - j)
    && (forall i :: 0 <= i < |ss| - 1 ==> ss[i].first + |ss[i].widths| == ss[i + 1].first)
  }

  lemma NumberedCons(s: Segment, p: Pass, ss: seq<Segment>, ps: seq<Pass>, first: nat, n: nat)
    requires s.first == first && |s.widths| == p.End() - p.from
    requires Numbered(ss, ps, first + |s.widths|, p.End(), n)
    ensures Numbered([s] + ss, [p] + ps, first, p.from, n)
  {
  }

  /**
   The ranges of character numbers that the segments carry are those of the
   passes, so they too follow each other and cover the text.
   */
  lemma {:induction false} SegmentsNumbered(st: Style, lw: int, cps: seq<CodePoint>, j: nat, first: nat)
    requires j <= |cps|
    ensures Numbered(Segments(st, lw, cps, j, first), Passes(st, lw, cps, j), first, j, |cps|)
    decreases |cps| - j
  {
    hide Outcome, Measure, SegmentOf, AddAll;
    Progress(st, lw, cps, j);
    var o := Outcome(st, lw, cps, j);
    if o.next == None {
      SegmentShape(st, cps, Pass(j, |cps|, false), first, o);
    } else {
      hide Numbered;
      var p := Pass(j, o.next.value, !o.inclusive);
      SegmentShape(st, cps, p, first, o);
      SegmentsNumbered(st, 0, cps, p.End(), first + p.End() - j);
      NumberedCons(SegmentOf(st, cps, p, first, o), p, Segments(st, 0, cps, p.End(), first + p.End() - j),
                   Passes(st, 0, cps, p.End()), first, |cps|);
    }
  }

  function AddToLast(lines: seq<Line>, s: Segment): (r: seq<Line>)
    requires |lines| > 0
    ensures |r| == |lines|
  {
    var n := |lines| - 1;
    lines[n := Line(lines[n].segments + [s], lines[n].currentWidth + s.width)]
  }

  /** The lines after the segments have been added: all but the first start a line. */
  ghost function AddAll(lines: seq<Line>, ss: seq<Segment>): seq<Line>
    requires |lines| > 0 && |ss| > 0
    decreases |ss|
  {
    var added := AddToLast(lines, ss[0]);
    if |ss| == 1 then added else AddAll(added + [Line([], 0)], ss[1..])
  }

  /**
   The first segment goes to the end of the line there is, which gets as much wider; every
   other segment has a line of its own; the lines before stay as they are.
   */
  lemma {:induction false} LinesAre(lines: seq<Line>, ss: seq<Segment>, k: nat)
    requires |lines| > 0 && |ss| > 0
    ensures
      var r, n := AddAll(lines, ss), |lines| - 1;
      && |r| == |lines| + |ss| - 1 && r[..n] == lines[..n]
      && r[n] == Line(lines[n].segments + [ss[0]], lines[n].currentWidth + ss[0].width)
      && (0 < k < |ss| ==> r[n + k] == Line([ss[k]], ss[k].width))
    decreases |ss|
  {
    if |ss| > 1 {
      var added := AddToLast(lines, ss[0]) + [Line([], 0)];
      LinesAre(added, ss[1..], if k > 0 then k - 1 else 0);
      var r, n := AddAll(lines, ss), |lines| - 1;
      assert r[..n + 1] == added[..n + 1];
      assert r[..n] == r[..n + 1][..n] && r[n] == r[..n + 1][n];
      if 0 < k < |ss| { assert ss[1..][k - 1] == ss[k]; }
    }
  }

  /** Skipping one byte skips one character: true of blanks, and of a blank mask over ASCII text. */
  ghost predicate SkipsAreBytes(st: Style, cps: seq<CodePoint>) {
    forall c :: 0 <= c < |cps| && IsSkippable(Shown(st, cps[c])) ==> cps[c] < 128
  }

  /** With the masks the header names (0 and 1), and with any mask that is not blank, that is so. */
  lemma OrdinaryMasks(st: Style, cps: seq<CodePoint>)
    requires !IsSkippable(st.mask)
    ensures SkipsAreBytes(st, cps)
  {
  }

  /** One byte past a character is the start of another one exactly if the character is ASCII. */
  lemma OneByteFurther(cps: seq<CodePoint>, k: nat)
    requires k < |cps|
    ensures (exists j :: 0 <= j <= |cps| && Off(cps, k) + 1 == Off(cps, j)) <==> cps[k] < 128
  {
    hide FormLen, Off;
    NextBoundary(cps, k);
    FormLenOne(cps[k]);
    forall j | 0 <= j <= |cps| && Off(cps, k) + 1 == Off(cps, j) ensures cps[k] < 128 {
      if j <= k { OffGrows(cps, j, k); } else { OffGrows(cps, k + 1, j); }
    }
  }

  lemma FormLenOne(cp: CodePoint)
    ensures FormLen(cp) == 1 <==> cp < 128
  {
  }

  /** strlen: the terminator is the first zero of a string. */
  method StrLen(mem: seq<Byte>, text: nat, ghost str: nat, ghost cps: seq<CodePoint>, ghost j: nat) returns (n: nat)
    requires Spells(mem, str, cps) && j <= |cps| && text == str + Off(cps, j)
    ensures text + n == str + Off(cps, |cps|)
  {
    hide *;
    OffGrows(cps, j, |cps|);
    StringEnd(mem, str, cps);
    n := 0;
    while mem[text + n] != 0
      invariant text + n <= str + Off(cps, |cps|)
      decreases str + Off(cps, |cps|) - text - n
    {
      n := n + 1;
    }
    if text + n < str + Off(cps, |cps|) {
      NoZeroInside(mem, str, cps, text + n, |cps|);
      assert false;
    }
  }

  lemma {:induction false} NoZeroInside(mem: seq<Byte>, str: nat, cps: seq<CodePoint>, at: nat, k: nat)
    requires Spells(mem, str, cps) && k <= |cps| && str <= at < str + Off(cps, k)
    ensures at < |mem| && mem[at] != 0
    decreases k
  {
    hide FormLen, Form, Spells, Off;
    if k == 0 {
      NoOffset(cps);
      assert false;
    }
    NextBoundary(cps, k - 1);
    if at < str + Off(cps, k - 1) {
      NoZeroInside(mem, str, cps, at, k - 1);
    } else {
      var from := str + Off(cps, k - 1);
      SpellsAt(mem, str, cps, k - 1);
      NoZeroInForm(cps[k - 1], at - from);
      assert mem[at] == mem[from..from + FormLen(cps[k - 1])][at - from];
    }
  }

  lemma NoZeroInForm(cp: CodePoint, i: nat)
    requires i < FormLen(cp)
    ensures Form(cp)[i] != 0
  {
    hide Shift, Power2;
    LeadFits(cp, FormLen(cp));
    if cp >= 128 {
      LongerMark(FormLen(cp));
      if i > 0 { ContsInTail(cp, FormLen(cp) - 1, i - 1); }
    } else {
      FormIsAscii(cp);
    }
  }

  lemma {:induction false} ContsInTail(x: nat, m: nat, i: nat)
    requires i < m
    ensures Tail(x, m)[i] >= 128
    decreases m
  {
    if i < m - 1 { ContsInTail(x / 64, m - 1, i); }
  }

  lemma WidthStep(st: Style, cps: seq<CodePoint>, from: nat, k: nat)
    requires from <= k < |cps|
    ensures WidthsOf(st, cps, from, k + 1)
         == WidthsOf(st, cps, from, k) + [Measure(st, cps, from, k + 1).penX - Measure(st, cps, from, k).penX]
    ensures var x := Measure(st, cps, from, k).penX;
      Measure(st, cps, from, k + 1).penX ==
        if Shown(st, cps[k]) == 9 then TruncDiv(x, 64) * 64 + 64
        else x + st.glyph(Shown(st, cps[k])).advance + st.letterSpacing
  {
    hide TruncDiv;
  }

  lemma NoWidths(st: Style, cps: seq<CodePoint>, from: nat)
    requires from <= |cps|
    ensures WidthsOf(st, cps, from, from) == [] && Measure(st, cps, from, from).penX == 0
  {
  }

  lemma SegmentIs(st: Style, cps: seq<CodePoint>, p: Pass, first: nat, o: Stop)
    requires p.from <= p.upTo <= |cps|
    ensures SegmentOf(st, cps, p, first, o) ==
      Segment(first, WidthsOf(st, cps, p.from, p.upTo) + (if p.skip then [0] else []), o.width, o.advance)
  {
  }

  /** What the rest of the text adds, with the next segment taken off. */
  lemma NextSegment(st: Style, lines: seq<Line>, lw: int, cps: seq<CodePoint>, j: nat, first: nat)
    requires j <= |cps| && |lines| > 0
    ensures var o := Outcome(st, lw, cps, j);
      if o.next == None then
        AddAll(lines, Segments(st, lw, cps, j, first))
          == AddToLast(lines, SegmentOf(st, cps, Pass(j, |cps|, false), first, o))
      else
        && j <= o.next.value < |cps|
        && var p := Pass(j, o.next.value, !o.inclusive);
        && j < p.End()
        && (p.skip ==> IsSkippable(Shown(st, cps[p.upTo])))
        && AddAll(lines, Segments(st, lw, cps, j, first))
           == AddAll(AddToLast(lines, SegmentOf(st, cps, p, first, o)) + [Line([], 0)],
                     Segments(st, 0, cps, p.End(), first + p.End() - j))
  {
    hide Outcome, SegmentOf, AddToLast, Measure;
    Progress(st, lw, cps, j);
    var o := Outcome(st, lw, cps, j);
    if o.next.Some? {
      var p := Pass(j, o.next.value, !o.inclusive);
      var rest := Segments(st, 0, cps, p.End(), first + p.End() - j);
      assert Segments(st, lw, cps, j, first)[1..] == rest;
    }
  }

  lemma SkipOne(st: Style, cps: seq<CodePoint>, k: nat)
    requires SkipsAreBytes(st, cps) && k < |cps| && IsSkippable(Shown(st, cps[k]))
    ensures Off(cps, k + 1) == Off(cps, k) + 1
  {
    hide FormLen;
    FormLenOne(cps[k]);
  }

  lemma LocatedAt(o: Stop, str: nat, cps: seq<CodePoint>)
    requires o.next.Some? ==> o.next.value <= |cps|
    ensures Located(o, str, cps).next == if o.next == None then None else Some(str + Off(cps, o.next.value))
    ensures var l := Located(o, str, cps);
      l.inclusive == o.inclusive && l.width == o.width && l.advance == o.advance
  {
  }

  class Pen {
    const style: Style
    var writePos: nat
    var lines: seq<Line>

    constructor (st: Style)
      ensures style == st && writePos == 0 && lines == [Line([], 0)]
    {
      style := st;
      writePos := 0;
      lines := [Line([], 0)];
    }

    /** The drawing loop of ddiWritePen over characters j to m - 1. */
    method DrawChars(mem: seq<Byte>, start: nat, textEnd: nat, widths: array<int>,
                     ghost str: nat, ghost cps: seq<CodePoint>, ghost j: nat, ghost m: nat)
      returns (numChars: nat)
      requires Spells(mem, str, cps) && j <= m <= |cps|
      requires start == str + Off(cps, j) && textEnd == str + Off(cps, m)
      requires textEnd - start <= widths.Length
      modifies `writePos, widths
      ensures numChars == m - j <= widths.Length && writePos == old(writePos) + (m - j)
      ensures widths[..numChars] == WidthsOf(style, cps, j, m)
    {
      hide *;
      numChars := 0;
      var text := start;
      var penX := 0;
      ghost var k := j;
      NoWidths(style, cps, j);
      OffGrows(cps, j, m);
      while text != textEnd
        invariant j <= k <= m && text == str + Off(cps, k) && numChars == k - j
        invariant penX == Measure(style, cps, j, k).penX
        invariant widths[..numChars] == WidthsOf(style, cps, j, k)
        invariant writePos == old(writePos) + numChars
        decreases m - k
      {
        OffGrows(cps, k, m);
        ReadsAs(mem, str, cps, k);
        WidthStep(style, cps, j, k);
        var cp, next := ReadUtf8(mem, text);
        text := next;
        var point := Shown(style, cp);
        ghost var before := widths[..numChars];
        writePos := writePos + 1;
        if point == 9 {
          var oldPenX := penX;
          penX := TruncDiv(penX, 64) * 64 + 64;
          widths[numChars] := penX - oldPenX;
        } else {
          var glyph := style.glyph(point);
          widths[numChars] := glyph.advance + style.letterSpacing;
          penX := penX + glyph.advance + style.letterSpacing;
        }
        numChars := numChars + 1;
        assert widths[..numChars] == before + [widths[numChars - 1]];
        k := k + 1;
      }
      OffGrows(cps, k, m);
    }

    /** ddiWritePen: writes the string at str, which spells cps. */
    method Write(mem: seq<Byte>, str: nat, ghost cps: seq<CodePoint>)
      requires Spells(mem, str, cps) && SkipsAreBytes(style, cps)
      requires |lines| > 0
      modifies this
      ensures cps == [] ==> lines == old(lines)
      ensures cps != [] ==>
        lines == AddAll(old(lines), Segments(style, old(lines[|lines| - 1].currentWidth), cps, 0, old(writePos)))
      ensures writePos == old(writePos) + |cps|
    {
      hide *;
      StringEnd(mem, str, cps);
      NoOffset(cps);
      OffGrows(cps, 0, |cps|);
      if mem[str] == 0 {
        StartOfText(mem, str, cps);
        return;
      }
      if |cps| == 0 {
        assert false;
      }
      var text := str;
      ghost var j := 0;
      ghost var all := AddAll(lines, Segments(style, lines[|lines| - 1].currentWidth, cps, 0, writePos));
      while true
        invariant 0 <= j <= |cps| && text == str + Off(cps, j) && |lines| > 0
        invariant writePos == old(writePos) + j
        invariant all == AddAll(lines, Segments(style, lines[|lines| - 1].currentWidth, cps, j, writePos))
        decreases |cps| - j
      {
        var lw := lines[|lines| - 1].currentWidth;
        var stop := SegmentSize(style, lw, mem, text, str, cps, j);
        ghost var o := Outcome(style, lw, cps, j);
        NextSegment(style, lines, lw, cps, j, writePos);
        LocatedAt(o, str, cps);
        ghost var m := if o.next == None then |cps| else o.next.value;
        OffGrows(cps, j, m);
        var textSize;
        if stop.next == None {
          textSize := StrLen(mem, text, str, cps, j);
        } else {
          textSize := stop.next.value - text;
        }
        var widths := new int[textSize + 1];
        var firstCharPos := writePos;
        var numChars := DrawChars(mem, text, text + textSize, widths, str, cps, j, m);
        if stop.next == None {
          SegmentIs(style, cps, Pass(j, m, false), firstCharPos, o);
          assert widths[..numChars] + [] == widths[..numChars];
          lines := AddToLast(lines, Segment(firstCharPos, widths[..numChars], stop.width, stop.advance));
          break;
        }
        ghost var drawn := widths[..numChars];
        ghost var p := Pass(j, m, !stop.inclusive);
        SegmentIs(style, cps, p, firstCharPos, o);
        EndOf(p);
        assert drawn + [] == drawn;
        text := stop.next.value;
        if !stop.inclusive {
          widths[numChars] := 0;
          numChars := numChars + 1;
          writePos := writePos + 1;
          text := text + 1;
          SkipOne(style, cps, m);
          assert widths[..numChars] == drawn + [0];
        }
        lines := AddToLast(lines, Segment(firstCharPos, widths[..numChars], stop.width, stop.advance));
        lines := lines + [Line([], 0)];
        assert writePos == firstCharPos + p.End() - j && lines[|lines| - 1] == Line([], 0);
        j := if p.skip then m + 1 else m;
      }
    }
  }

  lemma EndOf(p: Pass)
    ensures p.End() == if p.skip then p.upTo + 1 else p.upTo
  {
  }

  lemma StartOfText(mem: seq<Byte>, str: nat, cps: seq<CodePoint>)
    requires Spells(mem, str, cps) && str < |mem| && mem[str] == 0
    ensures cps == []
  {
    if cps != [] {
      NoOffset(cps);
      OffGrows(cps, 0, |cps|);
      NoZeroInside(mem, str, cps, str, |cps|);
    }
  }
}
