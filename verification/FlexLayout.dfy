/**
 The flex layout of libgwm (libgwm/flexlayout.c): rows and columns of their own
 sizes, filled cell by cell.
 */
module FlexLayout {
  import opened LinkedLists
  import opened CellTable
  import opened CArith
  import opened LayoutArea
  import opened Tracks

  datatype MinSize = MinSize(width: nat, height: nat)

  /** A child without a layout only keeps its cell. */
  datatype Child = Child(layout: Option<MinSize>, xProp: nat, yProp: nat, xCenter: bool, yCenter: bool)

  function MinOf(vertical: bool, e: Child): nat {
    if e.layout == None then 0 else if vertical then e.layout.value.height else e.layout.value.width
  }

  function PropOf(vertical: bool, e: Child): nat { if vertical then e.yProp else e.xProp }

  /** The greatest minimum and the greatest proportion of the entries of a row or column. */
  function TrackOf(vertical: bool, es: seq<Option<Child>>): Track {
    if es == [] then Track(0, 0)
    else
      var t := TrackOf(vertical, es[..|es| - 1]);
      match es[|es| - 1]
      case None => t
      case Some(e) =>
        Track(if MinOf(vertical, e) > t.len then MinOf(vertical, e) else t.len,
              if PropOf(vertical, e) > t.prop then PropOf(vertical, e) else t.prop)
  }

  function Column(cols: nat, rows: seq<Row<Child>>, c: nat): (es: seq<Option<Child>>)
    requires TableOk(cols, rows) && c < cols
    ensures |es| == |rows| && forall r :: 0 <= r < |rows| ==> es[r] == rows[r].ents[c]
  {
    if rows == [] then [] else Column(cols, rows[..|rows| - 1], c) + [rows[|rows| - 1].ents[c]]
  }

  function ColTracks(cols: nat, rows: seq<Row<Child>>): (ts: seq<Track>)
    requires TableOk(cols, rows)
    ensures |ts| == cols && forall c :: 0 <= c < cols ==> ts[c] == TrackOf(false, Column(cols, rows, c))
  {
    seq(cols, c requires 0 <= c < cols => TrackOf(false, Column(cols, rows, c)))
  }

  function RowTracks(cols: nat, rows: seq<Row<Child>>): (ts: seq<Track>)
    requires TableOk(cols, rows)
    ensures |ts| == |rows| && forall r :: 0 <= r < |rows| ==> ts[r] == TrackOf(true, rows[r].ents)
  {
    seq(|rows|, r requires 0 <= r < |rows| => TrackOf(true, rows[r].ents))
  }

  /** The greatest length that a unit of a track needs, rounded down. */
  function LongestUnit(ts: seq<Track>): nat {
    if ts == [] then 0
    else
      var t, rest := ts[|ts| - 1], LongestUnit(ts[..|ts| - 1]);
      if t.prop != 0 && t.len / t.prop > rest then t.len / t.prop else rest
  }

  lemma {:induction false} TrackIsBound(vertical: bool, es: seq<Option<Child>>, i: nat)
    requires i < |es| && es[i].Some?
    ensures MinOf(vertical, es[i].value) <= TrackOf(vertical, es).len
    ensures PropOf(vertical, es[i].value) <= TrackOf(vertical, es).prop
    decreases |es|
  {
    if i < |es| - 1 { TrackIsBound(vertical, es[..|es| - 1], i); }
  }

  lemma {:induction false} LongestUnitIsBound(ts: seq<Track>, i: nat)
    requires i < |ts| && ts[i].prop != 0
    ensures ts[i].len / ts[i].prop <= LongestUnit(ts)
    decreases |ts|
  {
    if i < |ts| - 1 { LongestUnitIsBound(ts[..|ts| - 1], i); }
  }

  // ---- Minimum sizes are enough, up to the rounding of the units ----

  function MinLength(ts: seq<Track>): nat {
    Fixed(ts) + LongestUnit(ts) * Units(ts)
  }

  /** A track of proportion p gets all its length, or at most p - 1 less. */
  lemma TrackIsEnough(ts: seq<Track>, length: nat, i: nat)
    requires MinLength(ts) <= length && i < |ts|
    ensures var given := Given(ts[i], UnitLen(ts, length));
      && (ts[i].prop == 0 ==> given == ts[i].len)
      && (ts[i].prop > 0 ==> given + (ts[i].prop - 1) >= ts[i].len)
  {
    hide Fixed, Units, UnitLen, LongestUnit;
    if ts[i].prop != 0 {
      LongestUnitIsBound(ts, i);
      UnitsAreEnough(ts, LongestUnit(ts), length);
      HasUnits(ts, i);
      DivBounds(ts[i].len, ts[i].prop);
      TimesMonotone(ts[i].len / ts[i].prop, UnitLen(ts, length), ts[i].prop);
    }
  }

  /** The bound is reached: a track of proportion p and length p - 1 may get nothing. */
  lemma ShortfallIsReached(p: nat)
    requires p >= 1
    ensures var ts := [Track(p - 1, p)];
      MinLength(ts) == 0 && Given(ts[0], UnitLen(ts, 0)) == 0
  {
    var ts := [Track(p - 1, p)];
    DivBounds(p - 1, p);
    LessThanOne((p - 1) / p, p);
    NoTracks(ts);
    assert ts[..1] == ts;
    SumsOfPrefix(ts, 0);
    OneMoreTrack(ts, 0);
    assert Units(ts) == p && Fixed(ts) == 0 && LongestUnit(ts) == 0;
    DivBounds(0, p);
    LessThanOne(0 / p, p);
    assert p * 0 == 0;
  }

  lemma LessThanOne(q: nat, p: nat)
    requires q * p < p
    ensures q == 0
  {
    if q >= 1 { TimesMonotone(1, q, p); }
  }

  // ---- Running the layout ----

  /** One axis of a child's area: its track, or its minimum in the middle of it. */
  function Span(at: int, given: int, min: nat, center: bool): (int, int) {
    if center then (at + TruncDiv(given - min, 2), min) else (at, given)
  }

  function AreaOf(cols: nat, rows: seq<Row<Child>>, a: Area, c: nat, r: nat, e: Child): Area
    requires TableOk(cols, rows) && c < cols && r < |rows|
  {
    var xs, ys := ColTracks(cols, rows), RowTracks(cols, rows);
    var xUnit, yUnit := UnitLen(xs, a.width), UnitLen(ys, a.height);
    var h := Span(a.x + Offset(xs, xUnit, c), Given(xs[c], xUnit), MinOf(false, e), e.xCenter);
    var v := Span(a.y + Offset(ys, yUnit, r), Given(ys[r], yUnit), MinOf(true, e), e.yCenter);
    Area(h.0, v.0, h.1, v.1)
  }

  /** A length that is at most `less` short of the minimum, and none if it is centred. */
  predicate Enough(length: int, min: nat, center: bool, prop: nat) {
    if center then length == min
    else if prop == 0 then length >= min
    else length + (prop - 1) >= min
  }

  /** A stretch lies in the track that starts at `at`. */
  predicate InTrack(s: (int, int), at: int, given: int) {
    at <= s.0 && s.0 + s.1 <= at + given
  }

  /** A child stays in its track exactly unless it is centred and its minimum exceeds the track. */
  lemma SpanInTrack(at: int, given: int, min: nat, center: bool)
    ensures InTrack(Span(at, given, min, center), at, given) <==> !center || min <= given
  {
  }

  lemma AxisIsEnough(ts: seq<Track>, length: nat, i: nat, min: nat, center: bool, at: int)
    requires MinLength(ts) <= length && i < |ts| && min <= ts[i].len
    ensures var unit := UnitLen(ts, length);
      var s := Span(at + Offset(ts, unit, i), Given(ts[i], unit), min, center);
      && Enough(s.1, min, center, ts[i].prop)
      && (InTrack(s, at + Offset(ts, unit, i), Given(ts[i], unit)) <==> !center || min <= Given(ts[i], unit))
      && 0 <= Offset(ts, unit, i) && Offset(ts, unit, i) + Given(ts[i], unit) <= length
  {
    hide Fixed, Units, UnitLen, Offset, LongestUnit, Given;
    TrackIsEnough(ts, length, i);
    TracksInside(ts, LongestUnit(ts), length, i);
    SpanInTrack(at + Offset(ts, UnitLen(ts, length), i), Given(ts[i], UnitLen(ts, length)), min, center);
  }

  /** Where a track starts and how long it is, when the layout is given `length`. */
  function StartOf(ts: seq<Track>, length: nat, i: nat): int
    requires i < |ts|
  {
    Offset(ts, UnitLen(ts, length), i)
  }

  function LengthOf(ts: seq<Track>, length: nat, i: nat): int
    requires i < |ts|
  {
    Given(ts[i], UnitLen(ts, length))
  }

  /** A child that stays in its column, or in its row. */
  predicate KeepsColumn(cols: nat, rows: seq<Row<Child>>, a: Area, c: nat, e: Child)
    requires TableOk(cols, rows) && c < cols && a.width >= 0
  {
    !e.xCenter || MinOf(false, e) <= LengthOf(ColTracks(cols, rows), a.width, c)
  }

  predicate KeepsRow(cols: nat, rows: seq<Row<Child>>, a: Area, r: nat, e: Child)
    requires TableOk(cols, rows) && r < |rows| && a.height >= 0
  {
    !e.yCenter || MinOf(true, e) <= LengthOf(RowTracks(cols, rows), a.height, r)
  }

  /** The layout is given at least its minimum size. */
  predicate HasMinimum(cols: nat, rows: seq<Row<Child>>, a: Area)
    requires TableOk(cols, rows)
  {
    MinLength(ColTracks(cols, rows)) <= a.width && MinLength(RowTracks(cols, rows)) <= a.height
  }

  /**
   A flex layout that is given at least its minimum size gives every child its
   minimum, or at most one pixel less for each unit of its track after the first,
   and a centred child exactly its minimum. The tracks lie inside the area, and a
   child lies in its column (row) exactly unless it is centred and its minimum
   exceeds the column (row); so it lies inside the area then.
   */
  lemma MinimumIsEnough(cols: nat, rows: seq<Row<Child>>, a: Area, c: nat, r: nat, e: Child)
    requires TableOk(cols, rows) && c < cols && r < |rows| && rows[r].ents[c] == Some(e)
    requires HasMinimum(cols, rows, a)
    ensures
      var b := AreaOf(cols, rows, a, c, r, e);
      var xs, ys := ColTracks(cols, rows), RowTracks(cols, rows);
      && Enough(b.width, MinOf(false, e), e.xCenter, xs[c].prop)
      && Enough(b.height, MinOf(true, e), e.yCenter, ys[r].prop)
      && (InTrack((b.x, b.width), a.x + StartOf(xs, a.width, c), LengthOf(xs, a.width, c)) <==>
            KeepsColumn(cols, rows, a, c, e))
      && (InTrack((b.y, b.height), a.y + StartOf(ys, a.height, r), LengthOf(ys, a.height, r)) <==>
            KeepsRow(cols, rows, a, r, e))
      && (KeepsColumn(cols, rows, a, c, e) && KeepsRow(cols, rows, a, r, e) ==> Inside(b, a))
  {
    hide Enough, Span, MinLength, UnitLen, Offset, Given, TrackOf, MinOf;
    var xs, ys := ColTracks(cols, rows), RowTracks(cols, rows);
    TrackIsBound(false, Column(cols, rows, c), r);
    TrackIsBound(true, rows[r].ents, c);
    AxisIsEnough(xs, a.width, c, MinOf(false, e), e.xCenter, a.x);
    AxisIsEnough(ys, a.height, r, MinOf(true, e), e.yCenter, a.y);
  }

  /** Of its column and its row a child has all, or its minimum in the middle, on each axis as its flags say. */
  lemma {:induction false} ChildLies(cols: nat, rows: seq<Row<Child>>, a: Area, c: nat, r: nat, e: Child)
    requires TableOk(cols, rows) && c < cols && r < |rows| && a.width >= 0 && a.height >= 0 && e.layout.Some?
    ensures
      var b := AreaOf(cols, rows, a, c, r, e);
      var xs, ys := ColTracks(cols, rows), RowTracks(cols, rows);
      && LiesIn(b.x, b.width, a.x + StartOf(xs, a.width, c), LengthOf(xs, a.width, c), 0, 0, !e.xCenter)
      && LiesIn(b.y, b.height, a.y + StartOf(ys, a.height, r), LengthOf(ys, a.height, r), 0, 0, !e.yCenter)
      && (e.xCenter ==> b.width == e.layout.value.width) && (e.yCenter ==> b.height == e.layout.value.height)
  {
    hide ColTracks, RowTracks, UnitLen, Offset, Given, Span, LiesIn;
    var xs, ys := ColTracks(cols, rows), RowTracks(cols, rows);
    SpanLies(a.x + StartOf(xs, a.width, c), LengthOf(xs, a.width, c), MinOf(false, e), e.xCenter);
    SpanLies(a.y + StartOf(ys, a.height, r), LengthOf(ys, a.height, r), MinOf(true, e), e.yCenter);
  }

  lemma SpanLies(at: int, given: int, min: nat, center: bool)
    ensures var s := Span(at, given, min, center);
      LiesIn(s.0, s.1, at, given, 0, 0, !center) && (center ==> s.1 == min)
  {
  }

  /** A track is no longer, and has no more units, than some child in it asks for. */
  lemma {:induction false} TrackIsSome(vertical: bool, es: seq<Option<Child>>) returns (i: nat, j: nat)
    ensures TrackOf(vertical, es).len > 0 ==>
      i < |es| && es[i].Some? && MinOf(vertical, es[i].value) == TrackOf(vertical, es).len
    ensures TrackOf(vertical, es).prop > 0 ==>
      j < |es| && es[j].Some? && PropOf(vertical, es[j].value) == TrackOf(vertical, es).prop
    decreases |es|
  {
    i, j := 0, 0;
    if es != [] {
      var n := |es| - 1;
      var t := TrackOf(vertical, es[..n]);
      i, j := TrackIsSome(vertical, es[..n]);
      if es[n].Some? {
        if MinOf(vertical, es[n].value) > t.len { i := n; }
        if PropOf(vertical, es[n].value) > t.prop { j := n; }
      }
    }
  }

  /** What the columns and rows are worked out from: widths and x proportions, heights and y proportions. */
  lemma {:induction false} TracksAreOf(cols: nat, rows: seq<Row<Child>>, c: nat, r: nat, e: Child)
    requires TableOk(cols, rows) && c < cols && r < |rows| && rows[r].ents[c] == Some(e)
    ensures
      var xs, ys := ColTracks(cols, rows), RowTracks(cols, rows);
      && e.xProp <= xs[c].prop && e.yProp <= ys[r].prop
      && (e.layout.Some? ==> e.layout.value.width <= xs[c].len && e.layout.value.height <= ys[r].len)
  {
    hide TrackOf;
    TrackIsBound(false, Column(cols, rows, c), r);
    TrackIsBound(true, rows[r].ents, c);
  }

  /** The units are no longer than some track needs, so no smaller size gives all tracks as much. */
  lemma {:induction false} MinimumIsTight(ts: seq<Track>) returns (i: nat)
    ensures Offset(ts, UnitLen(ts, MinLength(ts)), |ts|) == MinLength(ts)
    ensures Units(ts) > 0 && LongestUnit(ts) > 0 ==>
      i < |ts| && ts[i].prop > 0 && ts[i].len / ts[i].prop == UnitLen(ts, MinLength(ts))
  {
    hide Fixed, Units, Offset, LongestUnit;
    assert ts[..|ts|] == ts;
    OffsetIs(ts, UnitLen(ts, MinLength(ts)), |ts|);
    if Units(ts) > 0 {
      WholeUnits(LongestUnit(ts), Units(ts));
    } else {
      assert LongestUnit(ts) * 0 == 0;
    }
    i := LongestUnitIsSome(ts);
  }

  lemma {:induction false} LongestUnitIsSome(ts: seq<Track>) returns (i: nat)
    ensures LongestUnit(ts) > 0 ==> i < |ts| && ts[i].prop > 0 && ts[i].len / ts[i].prop == LongestUnit(ts)
    decreases |ts|
  {
    i := 0;
    if ts != [] {
      var n := |ts| - 1;
      i := LongestUnitIsSome(ts[..n]);
      if ts[n].prop != 0 && ts[n].len / ts[n].prop > LongestUnit(ts[..n]) { i := n; }
    }
  }

  /** Children that keep different columns, or different rows, do not overlap. */
  lemma ChildrenApart(cols: nat, rows: seq<Row<Child>>, a: Area, c: nat, r: nat, e: Child, x: nat, y: nat, f: Child)
    requires TableOk(cols, rows) && HasMinimum(cols, rows, a)
    requires c < cols && r < |rows| && rows[r].ents[c] == Some(e)
    requires x < cols && y < |rows| && rows[y].ents[x] == Some(f)
    requires
      || (c < x && KeepsColumn(cols, rows, a, c, e) && KeepsColumn(cols, rows, a, x, f))
      || (r < y && KeepsRow(cols, rows, a, r, e) && KeepsRow(cols, rows, a, y, f))
    ensures Apart(AreaOf(cols, rows, a, c, r, e), AreaOf(cols, rows, a, x, y, f))
  {
    hide Enough, AreaOf, Fixed, Units, UnitLen, LongestUnit, Offset, Given, TrackOf, MinOf, KeepsColumn, KeepsRow;
    MinimumIsEnough(cols, rows, a, c, r, e);
    MinimumIsEnough(cols, rows, a, x, y, f);
    if c < x && KeepsColumn(cols, rows, a, c, e) && KeepsColumn(cols, rows, a, x, f) {
      TracksInside(ColTracks(cols, rows), LongestUnit(ColTracks(cols, rows)), a.width, c);
    } else {
      TracksInside(RowTracks(cols, rows), LongestUnit(RowTracks(cols, rows)), a.height, r);
    }
  }

  /** Two centred children of width 5 in columns of proportion 3, at the minimum size of the layout. */
  const Wide: Child := Child(Some(MinSize(5, 1)), 3, 0, true, false)
  const WideRow: Row<Child> := Row([3], [Some(Wide), Some(Wide)])

  /** They stick out of the area on both sides, and overlap. */
  lemma CentredMayStickOut()
    ensures TableOk(2, [WideRow]) && HasMinimum(2, [WideRow], Area(0, 0, 6, 1))
    ensures AreaOf(2, [WideRow], Area(0, 0, 6, 1), 0, 0, Wide) == Area(-1, 0, 5, 1)
    ensures AreaOf(2, [WideRow], Area(0, 0, 6, 1), 1, 0, Wide) == Area(2, 0, 5, 1)
    ensures !Inside(Area(-1, 0, 5, 1), Area(0, 0, 6, 1)) && !Inside(Area(2, 0, 5, 1), Area(0, 0, 6, 1))
    ensures !Apart(Area(-1, 0, 5, 1), Area(2, 0, 5, 1))
  {
    hide ColTracks, RowTracks, Fixed, Units, LongestUnit, Offset;
    WideTracks();
    var xs, ys := ColTracks(2, [WideRow]), RowTracks(2, [WideRow]);
    TwoColumns(xs);
    FixedRow(ys);
    assert UnitLen(xs, 6) == 1 && UnitLen(ys, 1) == 0;
    NextTrack(xs, 1, 0);
    StartOfTracks(xs, 1);
    StartOfTracks(ys, 0);
  }

  lemma WideTracks()
    ensures TableOk(2, [WideRow])
    ensures ColTracks(2, [WideRow]) == [Track(5, 3), Track(5, 3)] && RowTracks(2, [WideRow]) == [Track(1, 0)]
  {
    hide TrackOf;
    var rows := [WideRow];
    OneWide(Column(2, rows, 0));
    OneWide(Column(2, rows, 1));
    TwoWide(WideRow.ents);
  }

  lemma OneWide(es: seq<Option<Child>>)
    requires es == [Some(Wide)]
    ensures TrackOf(false, es) == Track(5, 3)
  {
    assert es[..0] == [] && es[..1] == es;
    OneMoreEntry(false, es, 0);
  }

  lemma TwoWide(es: seq<Option<Child>>)
    requires es == [Some(Wide), Some(Wide)]
    ensures TrackOf(true, es) == Track(1, 0)
  {
    hide TrackOf;
    assert es[..0] == [] && es[..2] == es;
    NoEntries(true, es);
    OneMoreEntry(true, es, 0);
    OneMoreEntry(true, es, 1);
  }

  lemma TwoColumns(ts: seq<Track>)
    requires ts == [Track(5, 3), Track(5, 3)]
    ensures Fixed(ts) == 0 && Units(ts) == 6 && LongestUnit(ts) == 1
  {
    hide Fixed, Units, LongestUnit;
    assert ts[..2] == ts;
    NoTracks(ts);
    OneMoreTrack(ts, 0);
    OneMoreTrack(ts, 1);
    SumsOfPrefix(ts, 0);
    SumsOfPrefix(ts, 1);
  }

  lemma FixedRow(ts: seq<Track>)
    requires ts == [Track(1, 0)]
    ensures Fixed(ts) == 1 && Units(ts) == 0 && LongestUnit(ts) == 0
  {
    hide Fixed, Units, LongestUnit;
    assert ts[..1] == ts;
    NoTracks(ts);
    OneMoreTrack(ts, 0);
    SumsOfPrefix(ts, 0);
  }

  // ---- The program ----

  lemma OneMoreEntry(vertical: bool, es: seq<Option<Child>>, i: nat)
    requires i < |es|
    ensures var t := TrackOf(vertical, es[..i]);
      TrackOf(vertical, es[..i + 1]) ==
        match es[i]
        case None => t
        case Some(e) =>
          Track(if MinOf(vertical, e) > t.len then MinOf(vertical, e) else t.len,
                if PropOf(vertical, e) > t.prop then PropOf(vertical, e) else t.prop)
  {
    assert es[..i + 1][..i] == es[..i];
  }

  lemma NoEntries(vertical: bool, es: seq<Option<Child>>)
    ensures TrackOf(vertical, es[..0]) == Track(0, 0)
  {
  }

  lemma OneMoreTrack(ts: seq<Track>, i: nat)
    requires i < |ts|
    ensures LongestUnit(ts[..i + 1]) ==
      if ts[i].prop != 0 && ts[i].len / ts[i].prop > LongestUnit(ts[..i]) then ts[i].len / ts[i].prop
      else LongestUnit(ts[..i])
  {
    assert ts[..i + 1][..i] == ts[..i];
  }

  lemma NoTracks(ts: seq<Track>)
    ensures Fixed(ts[..0]) == 0 && Units(ts[..0]) == 0 && LongestUnit(ts[..0]) == 0 && ts[..|ts|] == ts
  {
  }

  /** One half of flexMinSize: the minimum length of one axis. */
  method AxisMin(info: seq<Track>) returns (length: nat)
    ensures length == MinLength(info)
  {
    hide Fixed, Units, LongestUnit;
    var units, longestUnit, totalLen := 0, 0, 0;
    NoTracks(info);
    for i := 0 to |info|
      invariant units == Units(info[..i]) && totalLen == Fixed(info[..i]) && longestUnit == LongestUnit(info[..i])
    {
      SumsOfPrefix(info, i);
      OneMoreTrack(info, i);
      if info[i].prop == 0 {
        totalLen := totalLen + info[i].len;
      } else {
        units := units + info[i].prop;
        var unitLen := info[i].len / info[i].prop;
        if unitLen > longestUnit { longestUnit := unitLen; }
      }
    }
    length := totalLen + longestUnit * units;
  }

  /** The sums at the start of flexRun, for one axis. */
  method AxisSums(info: seq<Track>) returns (fixed: nat, units: nat)
    ensures fixed == Fixed(info) && units == Units(info)
  {
    hide Fixed, Units, LongestUnit;
    fixed, units := 0, 0;
    NoTracks(info);
    for i := 0 to |info|
      invariant units == Units(info[..i]) && fixed == Fixed(info[..i])
    {
      SumsOfPrefix(info, i);
      if info[i].prop == 0 { fixed := fixed + info[i].len; } else { units := units + info[i].prop; }
    }
  }

  /** The area of a child at (x, y) in a cell of that size. */
  function PlacedIn(e: Child, x: int, y: int, width: int, height: int): Area
    requires e.layout.Some?
  {
    Area(if e.xCenter then x + TruncDiv(width - e.layout.value.width, 2) else x,
         if e.yCenter then y + TruncDiv(height - e.layout.value.height, 2) else y,
         if e.xCenter then e.layout.value.width else width,
         if e.yCenter then e.layout.value.height else height)
  }

  method PlaceChild(child: Child, x: int, y: int, colWidth: int, rowHeight: int) returns (area: Area)
    requires child.layout.Some?
    ensures area == PlacedIn(child, x, y, colWidth, rowHeight)
  {
    hide TruncDiv;
    var min := child.layout.value;
    var childX, childWidth := x, colWidth;
    var childY, childHeight := y, rowHeight;
    if child.xCenter {
      childWidth := min.width;
      childX := childX + TruncDiv(colWidth - childWidth, 2);
    }
    if child.yCenter {
      childHeight := min.height;
      childY := childY + TruncDiv(rowHeight - childHeight, 2);
    }
    area := Area(childX, childY, childWidth, childHeight);
  }

  lemma ValidTable(cols: nat, rows: seq<Row<Child>>, placed: seq<Child>)
    requires FlexOk(cols, rows, placed)
    ensures cols >= 1 && TableOk(cols, rows) && forall r :: 0 <= r < |rows| ==> |rows[r].ents| == cols
  {
  }

  /** A cell holds a child that has a layout. */
  predicate HasLayout(cols: nat, rows: seq<Row<Child>>, c: nat, r: nat)
    requires c < cols && r < |rows| && |rows[r].ents| == cols
  {
    rows[r].ents[c].Some? && rows[r].ents[c].value.layout.Some?
  }

  lemma LayoutIs(cols: nat, rows: seq<Row<Child>>, c: nat, r: nat)
    requires TableOk(cols, rows) && c < cols && r < |rows|
    ensures HasLayout(cols, rows, c, r) <==> rows[r].ents[c].Some? && rows[r].ents[c].value.layout.Some?
  {
  }

  predicate Before(x: nat, y: nat, c: nat, r: nat) { y < r || (y == r && x < c) }

  /** The children before cell (c, r) have their areas, and no others. */
  ghost predicate AreasBefore(
      areas: map<(nat, nat), Area>, cols: nat, rows: seq<Row<Child>>, a: Area, c: nat, r: nat)
    requires TableOk(cols, rows) && c <= cols && r <= |rows|
  {
    && (forall x: nat, y: nat :: (x, y) in areas <==>
          x < cols && y < |rows| && Before(x, y, c, r) && HasLayout(cols, rows, x, y))
    && (forall x: nat, y: nat :: (x, y) in areas ==>
          areas[(x, y)] == AreaOf(cols, rows, a, x, y, rows[y].ents[x].value))
  }

  lemma NoAreas(cols: nat, rows: seq<Row<Child>>, a: Area)
    requires TableOk(cols, rows)
    ensures AreasBefore(map[], cols, rows, a, 0, 0)
  {
  }

  lemma AllAreas(areas: map<(nat, nat), Area>, cols: nat, rows: seq<Row<Child>>, a: Area)
    requires TableOk(cols, rows) && AreasBefore(areas, cols, rows, a, 0, |rows|)
    ensures forall c: nat, r: nat :: (c, r) in areas <==> c < cols && r < |rows| && HasLayout(cols, rows, c, r)
    ensures forall c: nat, r: nat :: c < cols && r < |rows| && HasLayout(cols, rows, c, r) ==>
      (c, r) in areas && areas[(c, r)] == AreaOf(cols, rows, a, c, r, rows[r].ents[c].value)
  {
    hide AreaOf;
  }

  lemma StartOfTracks(ts: seq<Track>, unit: int)
    ensures Offset(ts, unit, 0) == 0
  {
  }

  lemma NextTrack(ts: seq<Track>, unit: int, i: nat)
    requires i < |ts|
    ensures Offset(ts, unit, i + 1) == Offset(ts, unit, i) + Given(ts[i], unit)
    ensures Given(ts[i], unit) == if ts[i].prop == 0 then ts[i].len else ts[i].prop * unit
  {
  }

  lemma NextArea(areas0: map<(nat, nat), Area>, areas: map<(nat, nat), Area>,
                 cols: nat, rows: seq<Row<Child>>, a: Area, c: nat, r: nat)
    requires TableOk(cols, rows) && c < cols && r < |rows| && AreasBefore(areas0, cols, rows, a, c, r)
    requires areas == if HasLayout(cols, rows, c, r)
                      then areas0[(c, r) := AreaOf(cols, rows, a, c, r, rows[r].ents[c].value)] else areas0
    ensures AreasBefore(areas, cols, rows, a, c + 1, r)
  {
    hide AreaOf;
  }

  lemma NextAreaRow(areas: map<(nat, nat), Area>, cols: nat, rows: seq<Row<Child>>, a: Area, r: nat)
    requires TableOk(cols, rows) && r < |rows| && AreasBefore(areas, cols, rows, a, cols, r)
    ensures AreasBefore(areas, cols, rows, a, 0, r + 1)
  {
    hide AreaOf, HasLayout;
  }

  lemma AreaIs(cols: nat, rows: seq<Row<Child>>, a: Area, c: nat, r: nat, e: Child, xUnit: int, yUnit: int)
    requires TableOk(cols, rows) && c < cols && r < |rows| && e.layout.Some?
    requires xUnit == UnitLen(ColTracks(cols, rows), a.width) && yUnit == UnitLen(RowTracks(cols, rows), a.height)
    ensures AreaOf(cols, rows, a, c, r, e) ==
      PlacedIn(e, a.x + Offset(ColTracks(cols, rows), xUnit, c), a.y + Offset(RowTracks(cols, rows), yUnit, r),
               Given(ColTracks(cols, rows)[c], xUnit), Given(RowTracks(cols, rows)[r], yUnit))
  {
    hide ColTracks, RowTracks, UnitLen, Offset, Given, TruncDiv;
  }

  /** The number of a cell, counted row by row. */
  function Index(cols: nat, c: nat, r: nat): nat { r * cols + c }

  function PlacedAt(placed: seq<Child>, k: nat): Option<Child> {
    if k < |placed| then Some(placed[k]) else None
  }

  /** There are as many rows as n children fill. */
  ghost predicate RowsHold(cols: nat, n: nat, rows: nat) {
    n <= rows * cols && (rows > 0 ==> (rows - 1) * cols < n)
  }

  /** The cells are filled row by row, from the left. */
  ghost predicate FlexOk(cols: nat, rows: seq<Row<Child>>, placed: seq<Child>) {
    && cols >= 1 && TableOk(cols, rows)
    && (forall c: nat, r: nat :: c < cols ==> (Set(cols, rows, c, r) <==> Index(cols, c, r) < |placed|))
    && (forall c: nat, r: nat :: c < cols ==> Entry(cols, rows, c, r) == PlacedAt(placed, Index(cols, c, r)))
    && RowsHold(cols, |placed|, |rows|)
  }

  lemma IndexOrder(cols: nat, c: nat, r: nat, x: nat, y: nat)
    requires c < cols && x < cols
    ensures r < y ==> Index(cols, c, r) < Index(cols, x, y)
    ensures Index(cols, c, r) == Index(cols, x, y) ==> c == x && r == y
  {
    if r < y {
      NextIndex(cols, r);
      TimesMonotone(r + 1, y, cols);
    } else if r > y {
      NextIndex(cols, y);
      TimesMonotone(y + 1, r, cols);
    }
  }

  lemma NextIndex(cols: nat, r: nat)
    ensures (r + 1) * cols == r * cols + cols
    ensures cols >= 1 ==> Index(cols, 0, r + 1) == Index(cols, cols - 1, r) + 1
  {
  }

  lemma FirstCell(cols: nat)
    ensures Index(cols, 0, 0) == 0
  {
  }

  /** In the last row and below it the rows hold one more child. */
  lemma RowsHoldMore(cols: nat, n: nat, rows: nat, x: nat, y: nat)
    requires cols >= 1 && x < cols && y <= rows && RowsHold(cols, n, rows) && Index(cols, x, y) == n
    ensures RowsHold(cols, n + 1, if y + 1 > rows then y + 1 else rows)
  {
    NextIndex(cols, y);
    if y < rows { TimesMonotone(y + 1, rows, cols); }
  }

  lemma BelowRows(cols: nat, n: nat, rows: nat, x: nat, y: nat)
    requires RowsHold(cols, n, rows) && y >= rows
    ensures Index(cols, x, y) >= n
  {
    TimesMonotone(rows, y, cols);
  }

  class Flex {
    const table: Table<Child>
    ghost var placed: seq<Child>

    ghost predicate Valid()
      reads this, table
    {
      FlexOk(table.cols, table.rows, placed)
    }

    constructor (cols: nat)
      requires cols >= 1
      ensures Valid() && fresh(table) && placed == [] && table.cols == cols && table.rows == []
    {
      table := new Table(cols);
      placed := [];
    }

    /** gwmFlexLayoutAddLayout: the child goes to the next cell. */
    method AddLayout(sub: Option<MinSize>, xProp: nat, yProp: nat, xCenter: bool, yCenter: bool)
      requires Valid()
      modifies this, table
      ensures Valid() && placed == old(placed) + [Child(sub, xProp, yProp, xCenter, yCenter)]
    {
      hide FlexOk, TableOk, Set, Entry, Index;
      var child := Child(sub, xProp, yProp, xCenter, yCenter);
      var y: nat := 0;
      FirstCell(table.cols);
      assert table.cols >= 1 by { FlexFacts(table.cols, table.rows, placed, 0, 0); }
      while true
        invariant Valid() && unchanged(this) && unchanged(table)
        invariant y <= |table.rows| && Index(table.cols, 0, y) <= |placed|
        decreases |table.rows| - y
      {
        for x := 0 to table.cols + 1
          invariant Valid() && unchanged(this) && unchanged(table)
          invariant Index(table.cols, 0, y) + x <= |placed| || x > table.cols
          invariant x == table.cols + 1 ==> Index(table.cols, 0, y) + table.cols <= |placed|
          invariant x > 0 ==> y < |table.rows|
        {
          FlexFacts(table.cols, table.rows, placed, if x < table.cols then x else 0, y);
          IndexIs(table.cols, x, y);
          var taken := table.IsTaken(x, y);
          if !taken {
            PlaceAt(child, x, y);
            return;
          }
        }
        NextIndex(table.cols, y);
        IndexIs(table.cols, table.cols - 1, y);
        y := y + 1;
      }
    }

    /** getColInfo. */
    method GetColInfo(info: array<Track>)
      requires Valid() && info.Length == table.cols && info != table as object
      modifies info
      ensures info[..] == ColTracks(table.cols, table.rows)
    {
      hide TrackOf, Index, Set, Entry, RowsHold;
      for i := 0 to table.cols
        invariant forall k :: 0 <= k < i ==> info[k] == TrackOf(false, Column(table.cols, table.rows, k))
      {
        ghost var es := Column(table.cols, table.rows, i);
        info[i] := Track(0, 0);
        NoEntries(false, es);
        for r := 0 to |table.rows|
          invariant info[i] == TrackOf(false, es[..r])
          invariant forall k :: 0 <= k < i ==> info[k] == TrackOf(false, Column(table.cols, table.rows, k))
        {
          var child := table.rows[r].ents[i];
          OneMoreEntry(false, es, r);
          if child.Some? {
            var minWidth := MinOf(false, child.value);
            if minWidth > info[i].len { info[i] := info[i].(len := minWidth); }
            if child.value.xProp > info[i].prop { info[i] := info[i].(prop := child.value.xProp); }
          }
        }
        assert es[..|es|] == es;
      }
    }

    /** getRowInfo. */
    method GetRowInfo(info: array<Track>)
      requires Valid() && info.Length == |table.rows| && info != table as object
      modifies info
      ensures info[..] == RowTracks(table.cols, table.rows)
    {
      hide TrackOf, Index, Set, Entry, RowsHold;
      for r := 0 to |table.rows|
        invariant forall k :: 0 <= k < r ==> info[k] == TrackOf(true, table.rows[k].ents)
      {
        var es := table.rows[r].ents;
        info[r] := Track(0, 0);
        NoEntries(true, es);
        for i := 0 to table.cols
          invariant info[r] == TrackOf(true, es[..i])
          invariant forall k :: 0 <= k < r ==> info[k] == TrackOf(true, table.rows[k].ents)
        {
          var child := es[i];
          OneMoreEntry(true, es, i);
          if child.Some? {
            var minHeight := MinOf(true, child.value);
            if minHeight > info[r].len { info[r] := info[r].(len := minHeight); }
            if child.value.yProp > info[r].prop { info[r] := info[r].(prop := child.value.yProp); }
          }
        }
        assert es[..|es|] == es;
      }
    }

    /** flexMinSize. */
    method MinSizes() returns (width: nat, height: nat)
      requires Valid()
      ensures width == MinLength(ColTracks(table.cols, table.rows))
      ensures height == MinLength(RowTracks(table.cols, table.rows))
    {
      hide ColTracks, RowTracks, Index, Set, Entry, RowsHold;
      var cols := new Track[table.cols];
      var rows := new Track[|table.rows|];
      GetColInfo(cols);
      GetRowInfo(rows);
      width := AxisMin(cols[..]);
      height := AxisMin(rows[..]);
    }

    /** The inner loop of flexRun: one row. */
    static method RunRow(rows: seq<Row<Child>>, a: Area, r: nat, cols: seq<Track>, xUnitLen: int, ghost yUnitLen: int,
                         yOffset: int, rowHeight: int, areas0: map<(nat, nat), Area>)
      returns (areas: map<(nat, nat), Area>)
      requires TableOk(|cols|, rows) && r < |rows| && cols == ColTracks(|cols|, rows) && |rows[r].ents| == |cols|
      requires xUnitLen == UnitLen(cols, a.width) && yUnitLen == UnitLen(RowTracks(|cols|, rows), a.height)
      requires yOffset == Offset(RowTracks(|cols|, rows), yUnitLen, r)
      requires rowHeight == Given(RowTracks(|cols|, rows)[r], yUnitLen)
      requires AreasBefore(areas0, |cols|, rows, a, 0, r)
      ensures AreasBefore(areas, |cols|, rows, a, |cols|, r)
    {
      hide TableOk, ColTracks, RowTracks, AreaOf, HasLayout, AreasBefore, PlacedIn;
      hide UnitLen, Offset, Given, Fixed, Units, TruncDiv;
      areas := areas0;
      StartOfTracks(cols, xUnitLen);
      var xOffset := 0;
      for c := 0 to |cols|
        invariant xOffset == Offset(cols, xUnitLen, c)
        invariant AreasBefore(areas, |cols|, rows, a, c, r)
      {
        NextTrack(cols, xUnitLen, c);
        var colWidth := if cols[c].prop == 0 then cols[c].len else cols[c].prop * xUnitLen;
        var child := rows[r].ents[c];
        LayoutIs(|cols|, rows, c, r);
        ghost var before := areas;
        if child.Some? && child.value.layout.Some? {
          var area := PlaceChild(child.value, a.x + xOffset, a.y + yOffset, colWidth, rowHeight);
          AreaIs(|cols|, rows, a, c, r, child.value, xUnitLen, yUnitLen);
          areas := areas[(c, r) := area];
        }
        NextArea(before, areas, |cols|, rows, a, c, r);
        xOffset := xOffset + colWidth;
      }
    }

    /** flexRun: the area handed to the child in (column, row). */
    method Run(a: Area) returns (areas: map<(nat, nat), Area>)
      requires Valid()
      ensures forall c: nat, r: nat :: (c, r) in areas <==>
        c < table.cols && r < |table.rows| && HasLayout(table.cols, table.rows, c, r)
      ensures forall c: nat, r: nat :: c < table.cols && r < |table.rows| && HasLayout(table.cols, table.rows, c, r) ==>
        (c, r) in areas && areas[(c, r)] == AreaOf(table.cols, table.rows, a, c, r, table.rows[r].ents[c].value)
    {
      hide FlexOk, TableOk, Index, Set, Entry, ColTracks, RowTracks, AreaOf, HasLayout, AreasBefore, PlacedIn;
      hide UnitLen, Offset, Given, Fixed, Units, TruncDiv;
      areas := map[];
      ValidTable(table.cols, table.rows, placed);
      NoAreas(table.cols, table.rows, a);
      if |table.rows| == 0 { return; }
      var colInfo := new Track[table.cols];
      var rowInfo := new Track[|table.rows|];
      GetColInfo(colInfo);
      GetRowInfo(rowInfo);
      var cols, rows := colInfo[..], rowInfo[..];
      ghost var xs, ys := ColTracks(table.cols, table.rows), RowTracks(table.cols, table.rows);
      var fixedWidth, xUnits := AxisSums(cols);
      var fixedHeight, yUnits := AxisSums(rows);
      var xUnitLen := if xUnits != 0 then TruncDiv(a.width - fixedWidth, xUnits) else 0;
      var yUnitLen := if yUnits != 0 then TruncDiv(a.height - fixedHeight, yUnits) else 0;
      UnitLenIs(xs, a.width);
      UnitLenIs(ys, a.height);
      var yOffset := 0;
      for r := 0 to |table.rows|
        invariant yOffset == Offset(ys, yUnitLen, r)
        invariant AreasBefore(areas, table.cols, table.rows, a, 0, r)
      {
        NextTrack(ys, yUnitLen, r);
        var rowHeight := if rows[r].prop == 0 then rows[r].len else rows[r].prop * yUnitLen;
        areas := RunRow(table.rows, a, r, cols, xUnitLen, yUnitLen, yOffset, rowHeight, areas);
        NextAreaRow(areas, table.cols, table.rows, a, r);
        yOffset := yOffset + rowHeight;
      }
      AllAreas(areas, table.cols, table.rows, a);
    }

    method PlaceAt(child: Child, x: nat, y: nat)
      requires Valid() && x < table.cols && y <= |table.rows| && Index(table.cols, x, y) == |placed|
      modifies this, table
      ensures Valid() && placed == old(placed) + [child]
    {
      hide FlexOk, TableOk, Set, Entry, Index;
      FlexFacts(table.cols, table.rows, placed, x, y);
      table.MarkTaken(x, y);
      table.Enter(x, y, child);
      FilledOneMore(table.cols, old(table.rows), table.rows, placed, child, x, y);
      placed := placed + [child];
    }
  }

  lemma IndexIs(cols: nat, x: nat, y: nat)
    ensures Index(cols, x, y) == Index(cols, 0, y) + x
  {
  }

  lemma FlexFacts(cols: nat, rows: seq<Row<Child>>, placed: seq<Child>, x: nat, y: nat)
    requires FlexOk(cols, rows, placed)
    ensures TableOk(cols, rows) && cols >= 1
    ensures x < cols ==> (Set(cols, rows, x, y) <==> Index(cols, x, y) < |placed|)
    ensures y >= |rows| ==> Index(cols, x, y) >= |placed|
  {
    hide Index, RowsHold;
    if y >= |rows| { BelowRows(cols, |placed|, |rows|, x, y); }
  }

  lemma FilledOneMore(
    cols: nat, was: seq<Row<Child>>, rows: seq<Row<Child>>, placed: seq<Child>, child: Child, x: nat, y: nat
  )
    requires FlexOk(cols, was, placed) && TableOk(cols, rows) && x < cols && y <= |was|
    requires Index(cols, x, y) == |placed| && |rows| == if y < |was| then |was| else y + 1
    requires forall c: nat, r: nat :: c < cols ==>
      (Set(cols, rows, c, r) <==> ((c == x && r == y) || Set(cols, was, c, r)))
    requires forall c: nat, r: nat :: c < cols ==>
      Entry(cols, rows, c, r) == if c == x && r == y then Some(child) else Entry(cols, was, c, r)
    ensures FlexOk(cols, rows, placed + [child])
  {
    hide TableOk, Set, Entry, Index, RowsHold;
    RowsHoldMore(cols, |placed|, |was|, x, y);
    forall c: nat, r: nat | c < cols
      ensures Set(cols, rows, c, r) <==> Index(cols, c, r) < |placed + [child]|
      ensures Entry(cols, rows, c, r) == PlacedAt(placed + [child], Index(cols, c, r))
    {
      IndexOrder(cols, c, r, x, y);
    }
  }
}
