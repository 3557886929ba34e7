/**
 The grid layout of libgwm (libgwm/gridlayout.c): the search for a free
 rectangle, and the sizes its children get.
 */
module GridLayout {
  import opened LinkedLists
  import opened CArith
  import opened CellTable
  import opened LayoutArea

  /** What a nested layout answers when asked for its sizes. */
  datatype Sizes = Sizes(minWidth: nat, minHeight: nat, prefWidth: nat, prefHeight: nat)

  /** A child without a layout only keeps its cells free. */
  datatype Child = Child(layout: Option<Sizes>, colspan: nat, rowspan: nat, xCenter: bool, yCenter: bool)

  /** A child and its first cell. */
  datatype Placed = Placed(col: nat, row: nat, child: Child)

  predicate Covers(p: Placed, c: nat, r: nat) {
    p.col <= c < p.col + p.child.colspan && p.row <= r < p.row + p.child.rowspan
  }

  predicate Disjoint(p: Placed, q: Placed) {
    || p.col + p.child.colspan <= q.col || q.col + q.child.colspan <= p.col
    || p.row + p.child.rowspan <= q.row || q.row + q.child.rowspan <= p.row
  }

  predicate Spans(p: Placed) { p.child.colspan >= 1 && p.child.rowspan >= 1 }

  predicate Within(p: Placed, cols: nat, rows: nat) {
    Spans(p) && p.col + p.child.colspan <= cols && p.row + p.child.rowspan <= rows
  }

  ghost predicate Covered(ps: seq<Placed>, c: nat, r: nat) {
    exists i :: 0 <= i < |ps| && Covers(ps[i], c, r)
  }

  /** The row just below the lowest child. */
  ghost function LowestEdge(ps: seq<Placed>): nat {
    if ps == [] then 0
    else
      var edge := ps[|ps| - 1].row + ps[|ps| - 1].child.rowspan;
      var rest := LowestEdge(ps[..|ps| - 1]);
      if edge > rest then edge else rest
  }

  ghost predicate PairwiseDisjoint(ps: seq<Placed>) {
    forall i, j :: 0 <= i < j < |ps| ==> Disjoint(ps[i], ps[j])
  }

  ghost predicate AllWithin(ps: seq<Placed>, cols: nat, rows: nat) {
    forall i :: 0 <= i < |ps| ==> Within(ps[i], cols, rows)
  }

  /** The child has a place there: it meets none of those placed before. */
  ghost predicate Fits(ps: seq<Placed>, p: Placed) {
    forall i :: 0 <= i < |ps| ==> Disjoint(ps[i], p)
  }

  /** Two rectangles are apart exactly if they share no cell. */
  lemma ApartIsNoSharedCell(p: Placed, q: Placed)
    requires Spans(p) && Spans(q)
    ensures Disjoint(p, q) <==> forall c: nat, r: nat :: Covers(p, c, r) ==> !Covers(q, c, r)
  {
    if !Disjoint(p, q) {
      var c := if p.col > q.col then p.col else q.col;
      var r := if p.row > q.row then p.row else q.row;
      assert Covers(p, c, r) && Covers(q, c, r);
    }
  }

  lemma FitsIsNoCoveredCell(ps: seq<Placed>, p: Placed, cols: nat, rows: nat)
    requires AllWithin(ps, cols, rows) && Spans(p)
    ensures Fits(ps, p) <==> forall c: nat, r: nat :: Covers(p, c, r) ==> !Covered(ps, c, r)
  {
    hide Disjoint, Covers;
    forall i | 0 <= i < |ps|
      ensures Disjoint(ps[i], p) <==> forall c: nat, r: nat :: Covers(ps[i], c, r) ==> !Covers(p, c, r)
    {
      assert Within(ps[i], cols, rows);
      ApartIsNoSharedCell(ps[i], p);
    }
    if Fits(ps, p) {
      forall c: nat, r: nat | Covers(p, c, r) ensures !Covered(ps, c, r) {
      }
    } else {
      var i :| 0 <= i < |ps| && !Disjoint(ps[i], p);
      var c: nat, r: nat :| Covers(ps[i], c, r) && Covers(p, c, r);
      assert Covered(ps, c, r);
    }
  }

  lemma LowestEdgeMore(ps: seq<Placed>, p: Placed)
    ensures LowestEdge(ps + [p]) ==
      if p.row + p.child.rowspan > LowestEdge(ps) then p.row + p.child.rowspan else LowestEdge(ps)
  {
    assert (ps + [p])[..|ps|] == ps;
  }

  lemma CoveredMore(ps: seq<Placed>, p: Placed, c: nat, r: nat)
    ensures Covered(ps + [p], c, r) <==> Covered(ps, c, r) || Covers(p, c, r)
  {
    hide Covers;
    if Covered(ps, c, r) {
      var i :| 0 <= i < |ps| && Covers(ps[i], c, r);
      assert (ps + [p])[i] == ps[i];
    }
    if Covers(p, c, r) { assert (ps + [p])[|ps|] == p; }
  }

  lemma PlacedMore(ps: seq<Placed>, p: Placed, cols: nat, rows: nat, rows': nat)
    requires AllWithin(ps, cols, rows) && PairwiseDisjoint(ps) && rows <= rows'
    requires Within(p, cols, rows') && Fits(ps, p)
    ensures AllWithin(ps + [p], cols, rows') && PairwiseDisjoint(ps + [p])
  {
    hide Disjoint;
  }

  /** Position (x, y) comes before (a, b) in the order of the search. */
  predicate Before(x: nat, y: nat, a: nat, b: nat) { y < b || (y == b && x < a) }

  /** A bit is set exactly on the cells some child covers. */
  ghost predicate BitsAreCovered(cols: nat, rows: seq<Row<Child>>, placed: seq<Placed>)
    requires TableOk(cols, rows)
  {
    forall c: nat, r: nat :: c < cols ==> (Set(cols, rows, c, r) <==> Covered(placed, c, r))
  }

  /** An entry is there exactly at the first cell of a child, and is that child. */
  ghost predicate EntriesArePlaced(cols: nat, rows: seq<Row<Child>>, placed: seq<Placed>)
    requires TableOk(cols, rows)
  {
    forall c: nat, r: nat, e :: c < cols ==> (Entry(cols, rows, c, r) == Some(e) <==> Placed(c, r, e) in placed)
  }

  ghost predicate GridOk(cols: nat, rows: seq<Row<Child>>, placed: seq<Placed>) {
    && TableOk(cols, rows)
    && BitsAreCovered(cols, rows, placed) && EntriesArePlaced(cols, rows, placed)
    && AllWithin(placed, cols, |rows|) && PairwiseDisjoint(placed)
    && |rows| == LowestEdge(placed)
  }

  /** Whether the rectangle is taken is whether the child does not fit; below the rows it always fits. */
  lemma TakenIsUnfit(cols: nat, rows: seq<Row<Child>>, placed: seq<Placed>, at: Placed)
    requires GridOk(cols, rows, placed) && Spans(at) && at.col + at.child.colspan <= cols
    ensures Fits(placed, at) <==>
      forall c: nat, r: nat ::
        at.col <= c < at.col + at.child.colspan && at.row <= r < at.row + at.child.rowspan ==> !Set(cols, rows, c, r)
    ensures at.row >= |rows| ==> Fits(placed, at)
  {
    hide Disjoint, LowestEdge, PairwiseDisjoint;
    FitsIsNoCoveredCell(placed, at, cols, |rows|);
    BelowIsFree(placed, cols, |rows|, at);
    if forall c: nat, r: nat ::
        at.col <= c < at.col + at.child.colspan && at.row <= r < at.row + at.child.rowspan ==> !Set(cols, rows, c, r) {
      forall c: nat, r: nat | Covers(at, c, r) ensures !Covered(placed, c, r) {
        assert !Set(cols, rows, c, r);
      }
    }
  }

  lemma BelowIsFree(placed: seq<Placed>, cols: nat, rows: nat, at: Placed)
    requires AllWithin(placed, cols, rows)
    ensures at.row >= rows ==> Fits(placed, at)
  {
  }

  /** Marking the cells and making the entry keeps the table in step with the children. */
  lemma NowPlaced(cols: nat, was: seq<Row<Child>>, rows: seq<Row<Child>>, placed: seq<Placed>, at: Placed)
    requires GridOk(cols, was, placed) && TableOk(cols, rows)
    requires Spans(at) && at.col + at.child.colspan <= cols && Fits(placed, at)
    requires |rows| == if at.row + at.child.rowspan > |was| then at.row + at.child.rowspan else |was|
    requires forall c: nat, r: nat :: c < cols ==>
      (Set(cols, rows, c, r) <==> (Set(cols, was, c, r) || Covers(at, c, r)))
    requires forall c: nat, r: nat :: c < cols ==>
      Entry(cols, rows, c, r) == if c == at.col && r == at.row then Some(at.child) else Entry(cols, was, c, r)
    ensures GridOk(cols, rows, placed + [at]) && Within(at, cols, |rows|)
  {
    hide Disjoint, LowestEdge, TableOk, Set, Entry, Covered;
    LowestEdgeMore(placed, at);
    PlacedMore(placed, at, cols, |was|, |rows|);
    forall c: nat, r: nat | c < cols ensures Set(cols, rows, c, r) <==> Covered(placed + [at], c, r) {
      CoveredMore(placed, at, c, r);
    }
    forall c: nat, r: nat, e | c < cols
      ensures Entry(cols, rows, c, r) == Some(e) <==> Placed(c, r, e) in placed + [at]
    {
      EntryKept(placed, at, c, r, e);
    }
  }

  /** Adding a child leaves the other first cells as they were. */
  lemma EntryKept(was: seq<Placed>, at: Placed, c: nat, r: nat, e: Child)
    requires Spans(at) && Fits(was, at) && forall i :: 0 <= i < |was| ==> Spans(was[i])
    ensures Placed(c, r, e) in was + [at] <==>
            if c == at.col && r == at.row then e == at.child else Placed(c, r, e) in was
  {
    forall i | 0 <= i < |was| ensures !(was[i].col == at.col && was[i].row == at.row) {
      assert Spans(was[i]) && Disjoint(was[i], at);
    }
  }

  // ---- Sizes ----

  /** The share of one axis that a child gets: all its cells, or its preferred length in the middle of them. */
  function Share(origin: int, cell: nat, index: nat, span: nat, center: bool, pref: nat): (r: (int, nat)) {
    if center && cell * span > pref then (origin + cell * index + (cell * span - pref) / 2, pref)
    else (origin + cell * index, cell * span)
  }

  function AreaOf(x: int, y: int, cellWidth: nat, cellHeight: nat, p: Placed): Area
    requires p.child.layout.Some?
  {
    var h := Share(x, cellWidth, p.col, p.child.colspan, p.child.xCenter, p.child.layout.value.prefWidth);
    var v := Share(y, cellHeight, p.row, p.child.rowspan, p.child.yCenter, p.child.layout.value.prefHeight);
    Area(h.0, v.0, h.1, v.1)
  }

  predicate AsksAtMost(p: Placed, mw: nat, mh: nat) {
    p.child.layout.Some? && Spans(p) ==>
      && p.child.layout.value.minWidth / p.child.colspan <= mw
      && p.child.layout.value.minHeight / p.child.rowspan <= mh
  }

  predicate AsksWidth(p: Placed, mw: nat) {
    p.child.layout.Some? && Spans(p) && p.child.layout.value.minWidth / p.child.colspan == mw
  }

  predicate AsksHeight(p: Placed, mh: nat) {
    p.child.layout.Some? && Spans(p) && p.child.layout.value.minHeight / p.child.rowspan == mh
  }

  /** mw and mh are the largest lengths that a child asks for per cell; 0 if there are none. */
  ghost predicate LargestPerCell(ps: seq<Placed>, mw: nat, mh: nat) {
    && (forall p :: p in ps ==> AsksAtMost(p, mw, mh))
    && (mw > 0 ==> exists p :: p in ps && AsksWidth(p, mw))
    && (mh > 0 ==> exists p :: p in ps && AsksHeight(p, mh))
  }

  /** The same of the children whose first cell comes before (c, r). */
  ghost predicate LargestBefore(ps: seq<Placed>, c: nat, r: nat, mw: nat, mh: nat) {
    && (forall p :: p in ps && Before(p.col, p.row, c, r) ==> AsksAtMost(p, mw, mh))
    && (mw > 0 ==> exists p :: p in ps && AsksWidth(p, mw))
    && (mh > 0 ==> exists p :: p in ps && AsksHeight(p, mh))
  }

  lemma InPlaced(cols: nat, rows: seq<Row<Child>>, ps: seq<Placed>, c: nat, r: nat)
    requires TableOk(cols, rows) && EntriesArePlaced(cols, rows, ps) && AllWithin(ps, cols, |rows|) && c < cols
    ensures forall p :: p in ps && p.col == c && p.row == r ==> Entry(cols, rows, c, r) == Some(p.child)
    ensures Entry(cols, rows, c, r).Some? ==>
      var p := Placed(c, r, Entry(cols, rows, c, r).value); p in ps && Spans(p)
  {
    hide Entry;
    forall p | p in ps && p.col == c && p.row == r ensures Entry(cols, rows, c, r) == Some(p.child) {
      assert Placed(c, r, p.child) == p;
    }
  }

  lemma NextCell(cols: nat, rows: seq<Row<Child>>, ps: seq<Placed>, c: nat, r: nat, w0: nat, h0: nat, w: nat, h: nat)
    requires TableOk(cols, rows) && EntriesArePlaced(cols, rows, ps) && AllWithin(ps, cols, |rows|) && c < cols
    requires LargestBefore(ps, c, r, w0, h0)
    requires var e := Entry(cols, rows, c, r);
      if e.Some? && e.value.layout.Some? then
        && e.value.colspan >= 1 && e.value.rowspan >= 1
        && var cw := e.value.layout.value.minWidth / e.value.colspan;
        var ch := e.value.layout.value.minHeight / e.value.rowspan;
        w == (if cw > w0 then cw else w0) && h == (if ch > h0 then ch else h0)
      else w == w0 && h == h0
    ensures LargestBefore(ps, c + 1, r, w, h)
  {
    hide Entry, EntriesArePlaced, AllWithin;
    InPlaced(cols, rows, ps, c, r);
    var e := Entry(cols, rows, c, r);
    if e.Some? && e.value.layout.Some? {
      var p := Placed(c, r, e.value);
      assert w > w0 ==> AsksWidth(p, w);
      assert h > h0 ==> AsksHeight(p, h);
    }
  }

  lemma NoneBeforeOrigin(ps: seq<Placed>)
    ensures LargestBefore(ps, 0, 0, 0, 0)
  {
  }

  lemma NextRow(cols: nat, rows: nat, ps: seq<Placed>, r: nat, w: nat, h: nat)
    requires AllWithin(ps, cols, rows) && LargestBefore(ps, cols, r, w, h)
    ensures LargestBefore(ps, 0, r + 1, w, h)
  {
    hide AsksAtMost, AsksWidth, AsksHeight;
  }

  lemma AllBefore(cols: nat, rows: nat, ps: seq<Placed>, w: nat, h: nat)
    requires AllWithin(ps, cols, rows) && LargestBefore(ps, 0, rows, w, h)
    ensures LargestPerCell(ps, w, h)
  {
    hide AsksAtMost, AsksWidth, AsksHeight;
  }

  /** The children whose first cell comes before (c, r) have their areas, and no others. */
  ghost predicate AreasBefore(
      areas: map<(nat, nat), Area>, ps: seq<Placed>, x: int, y: int, cw: nat, ch: nat, c: nat, r: nat)
  {
    && (forall p :: p in ps && p.child.layout.Some? && Before(p.col, p.row, c, r) ==>
          (p.col, p.row) in areas && areas[(p.col, p.row)] == AreaOf(x, y, cw, ch, p))
    && (forall k :: k in areas ==> exists p :: p in ps && p.child.layout.Some? && (p.col, p.row) == k)
  }

  lemma NextArea(cols: nat, rows: seq<Row<Child>>, ps: seq<Placed>, x: int, y: int, cw: nat, ch: nat, c: nat, r: nat,
                 areas0: map<(nat, nat), Area>, areas: map<(nat, nat), Area>)
    requires TableOk(cols, rows) && EntriesArePlaced(cols, rows, ps) && AllWithin(ps, cols, |rows|) && c < cols
    requires AreasBefore(areas0, ps, x, y, cw, ch, c, r)
    requires var e := Entry(cols, rows, c, r);
      areas == if e.Some? && e.value.layout.Some? then areas0[(c, r) := AreaOf(x, y, cw, ch, Placed(c, r, e.value))]
               else areas0
    ensures AreasBefore(areas, ps, x, y, cw, ch, c + 1, r)
  {
    hide Entry, EntriesArePlaced, AllWithin, AreaOf;
    InPlaced(cols, rows, ps, c, r);
    forall k | k in areas ensures exists p :: p in ps && p.child.layout.Some? && (p.col, p.row) == k {
      var e := Entry(cols, rows, c, r);
      if k in areas0 {
        assert exists p :: p in ps && p.child.layout.Some? && (p.col, p.row) == k;
      } else {
        assert Placed(c, r, e.value) in ps;
      }
    }
  }

  lemma NextAreaRow(cols: nat, rows: nat, ps: seq<Placed>, x: int, y: int, cw: nat, ch: nat, r: nat,
                    areas: map<(nat, nat), Area>)
    requires AllWithin(ps, cols, rows) && AreasBefore(areas, ps, x, y, cw, ch, cols, r)
    ensures AreasBefore(areas, ps, x, y, cw, ch, 0, r + 1)
  {
    hide AreaOf;
  }

  /** A child centred at a preferred length more than span - 1 short of its minimum. */
  predicate PrefersTooLittle(span: nat, center: bool, min: nat, pref: nat) {
    center && pref + span - 1 < min
  }

  /**
   On one axis: at least the minimum less span - 1 unless a centred child prefers less;
   inside its cells and the parent.
   */
  lemma ShareIsEnough(
    origin: int, length: nat, n: nat, m: nat, index: nat, span: nat, center: bool, min: nat, pref: nat
  )
    requires n >= 1 && span >= 1 && index + span <= n && min / span <= m && m * n <= length
    ensures var s := Share(origin, length / n, index, span, center, pref);
      && (s.1 + span - 1 >= min <==> !PrefersTooLittle(span, center, min, pref))
      && origin <= s.0 && s.0 + s.1 <= origin + length
      && origin + length / n * index <= s.0 && s.0 + s.1 <= origin + length / n * (index + span)
  {
    var cell := length / n;
    DivAtLeast(length, m, n);
    DivBounds(min, span);
    TimesMonotone(min / span, cell, span);
    DivBounds(length, n);
    TimesMonotone(index + span, n, cell);
    assert cell * (index + span) == cell * index + cell * span;
    assert cell * index >= 0;
  }

  /**
   A grid that is given at least its minimum size gives a child at least its own
   minimum, up to one pixel less for each cell after the first, exactly unless the
   child is centred and prefers less than that; and every child lies inside the grid.
   */
  lemma MinimumIsEnough(
    cols: nat, rows: nat, ps: seq<Placed>, mw: nat, mh: nat, x: int, y: int, width: nat, height: nat, i: nat
  )
    requires cols >= 1 && rows >= 1 && AllWithin(ps, cols, rows) && LargestPerCell(ps, mw, mh)
    requires mw * cols <= width && mh * rows <= height
    requires i < |ps| && ps[i].child.layout.Some?
    ensures var a := AreaOf(x, y, width / cols, height / rows, ps[i]);
      var s := ps[i].child.layout.value;
      var e := ps[i].child;
      && (a.width + e.colspan - 1 >= s.minWidth <==> !PrefersTooLittle(e.colspan, e.xCenter, s.minWidth, s.prefWidth))
      && (a.height + e.rowspan - 1 >= s.minHeight <==>
            !PrefersTooLittle(e.rowspan, e.yCenter, s.minHeight, s.prefHeight))
      && Inside(a, Area(x, y, width, height))
  {
    hide Share;
    var p, s := ps[i], ps[i].child.layout.value;
    assert Within(p, cols, rows) && AsksAtMost(p, mw, mh);
    ShareIsEnough(x, width, cols, mw, p.col, p.child.colspan, p.child.xCenter, s.minWidth, s.prefWidth);
    ShareIsEnough(y, height, rows, mh, p.row, p.child.rowspan, p.child.yCenter, s.minHeight, s.prefHeight);
  }

  /** The bound is reached: a child that asks for span - 1 pixels over span columns may get none. */
  lemma ShortfallIsReached(span: nat, pref: nat)
    requires span >= 1
    ensures var p := Placed(0, 0, Child(Some(Sizes(span - 1, 0, pref, 0)), span, 1, false, false));
      LargestPerCell([p], 0, 0) && AreaOf(0, 0, 0 / span, 0, p).width == 0
  {
    DivBounds(span - 1, span);
    if (span - 1) / span >= 1 { TimesMonotone(1, (span - 1) / span, span); }
    assert 0 * span == 0;
  }

  /**
   Of its cells a child has all; or, if it is centred on that axis and the cells are longer
   than it prefers, what it prefers in the middle of them.
   */
  lemma {:induction false} ChildLies(x: int, y: int, cw: nat, ch: nat, p: Placed)
    requires p.child.layout.Some?
    ensures
      var b, s, e := AreaOf(x, y, cw, ch, p), p.child.layout.value, p.child;
      var w, h := cw * e.colspan, ch * e.rowspan;
      && LiesIn(b.x, b.width, x + cw * p.col, w, 0, 0, !(e.xCenter && w > s.prefWidth))
      && LiesIn(b.y, b.height, y + ch * p.row, h, 0, 0, !(e.yCenter && h > s.prefHeight))
      && (e.xCenter && w > s.prefWidth ==> b.width == s.prefWidth)
      && (e.yCenter && h > s.prefHeight ==> b.height == s.prefHeight)
  {
    hide LiesIn, Share;
    ShareLies(x, cw, p.col, p.child.colspan, p.child.xCenter, p.child.layout.value.prefWidth);
    ShareLies(y, ch, p.row, p.child.rowspan, p.child.yCenter, p.child.layout.value.prefHeight);
  }

  lemma ShareLies(origin: int, cell: nat, index: nat, span: nat, center: bool, pref: nat)
    ensures var s := Share(origin, cell, index, span, center, pref);
      && LiesIn(s.0, s.1, origin + cell * index, cell * span, 0, 0, !(center && cell * span > pref))
      && (center && cell * span > pref ==> s.1 == pref)
  {
  }

  /** A centred child that prefers less than its minimum gets that, in a grid that has room for the minimum. */
  lemma CentredGetsPreferred()
    ensures
      var p := Placed(0, 0, Child(Some(Sizes(10, 10, 4, 4)), 1, 1, true, true));
      && Within(p, 1, 1) && LargestPerCell([p], 10, 10)
      && AreaOf(0, 0, 10 / 1, 10 / 1, p) == Area(3, 3, 4, 4)
  {
    var p := Placed(0, 0, Child(Some(Sizes(10, 10, 4, 4)), 1, 1, true, true));
    assert p in [p] && AsksWidth(p, 10) && AsksHeight(p, 10);
  }

  /** Children never overlap. */
  lemma AreasApart(cols: nat, rows: nat, ps: seq<Placed>, x: int, y: int, cw: nat, ch: nat, i: nat, j: nat)
    requires AllWithin(ps, cols, rows) && PairwiseDisjoint(ps)
    requires i < j < |ps| && ps[i].child.layout.Some? && ps[j].child.layout.Some?
    ensures Apart(AreaOf(x, y, cw, ch, ps[i]), AreaOf(x, y, cw, ch, ps[j]))
  {
    hide Share;
    var p, q := ps[i], ps[j];
    assert Within(p, cols, rows) && Within(q, cols, rows) && Disjoint(p, q);
    ShareInCells(x, cw, p.col, p.child.colspan, p.child.xCenter, p.child.layout.value.prefWidth);
    ShareInCells(x, cw, q.col, q.child.colspan, q.child.xCenter, q.child.layout.value.prefWidth);
    ShareInCells(y, ch, p.row, p.child.rowspan, p.child.yCenter, p.child.layout.value.prefHeight);
    ShareInCells(y, ch, q.row, q.child.rowspan, q.child.yCenter, q.child.layout.value.prefHeight);
    if p.col + p.child.colspan <= q.col { TimesMonotone(p.col + p.child.colspan, q.col, cw); }
    if q.col + q.child.colspan <= p.col { TimesMonotone(q.col + q.child.colspan, p.col, cw); }
    if p.row + p.child.rowspan <= q.row { TimesMonotone(p.row + p.child.rowspan, q.row, ch); }
    if q.row + q.child.rowspan <= p.row { TimesMonotone(q.row + q.child.rowspan, p.row, ch); }
  }

  lemma ShareInCells(origin: int, cell: nat, index: nat, span: nat, center: bool, pref: nat)
    ensures var s := Share(origin, cell, index, span, center, pref);
      origin + cell * index <= s.0 && s.0 + s.1 <= origin + cell * (index + span)
  {
    assert cell * (index + span) == cell * index + cell * span;
  }

  /** No cell of the rectangle from (col, row) up to (right, below) is taken. */
  ghost predicate NoneSet(cols: nat, rows: seq<Row<Child>>, col: nat, row: nat, right: nat, below: nat)
    requires TableOk(cols, rows) && right <= cols
  {
    forall c: nat, r: nat :: col <= c < right && row <= r < below ==> !Set(cols, rows, c, r)
  }

  /** Only children make rows, and a child needs a column. */
  lemma RowsNeedColumns(cols: nat, rows: seq<Row<Child>>, placed: seq<Placed>)
    requires GridOk(cols, rows, placed)
    ensures |rows| > 0 ==> cols >= 1
  {
    if placed != [] { assert Within(placed[0], cols, |rows|) && Spans(placed[0]); }
  }

  /** No place before (x, y) is free for the child. */
  ghost predicate NoneBefore(ps: seq<Placed>, child: Child, x: nat, y: nat, cols: nat) {
    forall a: nat, b: nat :: Before(a, b, x, y) && a + child.colspan <= cols ==> !Fits(ps, Placed(a, b, child))
  }

  class Grid {
    const table: Table<Child>
    ghost var placed: seq<Placed>

    ghost predicate Valid()
      reads this, table
    {
      GridOk(table.cols, table.rows, placed)
    }

    constructor (cols: nat)
      ensures Valid() && fresh(table) && placed == [] && table.cols == cols && table.rows == []
    {
      table := new Table(cols);
      placed := [];
    }

    /** isRectTaken: some cell of the rectangle is taken. */
    method IsRectTaken(col: nat, row: nat, colspan: nat, rowspan: nat) returns (taken: bool)
      requires table.Valid() && col + colspan <= table.cols
      ensures !taken <==> NoneSet(table.cols, table.rows, col, row, col + colspan, row + rowspan)
    {
      hide TableOk, Set, Entry, Covered, GridOk;
      for x := col to col + colspan
        invariant NoneSet(table.cols, table.rows, col, row, x, row + rowspan)
      {
        for y := row to row + rowspan
          invariant forall r: nat :: row <= r < y ==> !Set(table.cols, table.rows, x, r)
        {
          var t := table.IsTaken(x, y);
          if t { return true; }
        }
      }
      return false;
    }

    /** markRectTaken. */
    method MarkRectTaken(col: nat, row: nat, colspan: nat, rowspan: nat)
      requires table.Valid() && col + colspan <= table.cols && colspan >= 1 && rowspan >= 1
      modifies table
      ensures table.Valid()
      ensures |table.rows| == if row + rowspan > old(|table.rows|) then row + rowspan else old(|table.rows|)
      ensures forall c: nat, r: nat :: c < table.cols ==>
        (Set(table.cols, table.rows, c, r) <==>
          old(Set(table.cols, table.rows, c, r)) || (col <= c < col + colspan && row <= r < row + rowspan))
      ensures forall c: nat, r: nat :: c < table.cols ==>
        Entry(table.cols, table.rows, c, r) == old(Entry(table.cols, table.rows, c, r))
    {
      hide TableOk, Set, Entry, Covered, GridOk;
      for x := col to col + colspan
        invariant table.Valid()
        invariant |table.rows| ==
          if x > col && row + rowspan > old(|table.rows|) then row + rowspan else old(|table.rows|)
        invariant forall c: nat, r: nat :: c < table.cols ==>
          (Set(table.cols, table.rows, c, r) <==>
            old(Set(table.cols, table.rows, c, r)) || (col <= c < x && row <= r < row + rowspan))
        invariant forall c: nat, r: nat :: c < table.cols ==>
          Entry(table.cols, table.rows, c, r) == old(Entry(table.cols, table.rows, c, r))
      {
        for y := row to row + rowspan
          invariant table.Valid()
          invariant |table.rows| ==
            if x > col && row + rowspan > old(|table.rows|) then row + rowspan
            else if y > row && y > old(|table.rows|) then y else old(|table.rows|)
          invariant forall c: nat, r: nat :: c < table.cols ==>
            (Set(table.cols, table.rows, c, r) <==>
              old(Set(table.cols, table.rows, c, r))
              || (col <= c < x && row <= r < row + rowspan) || (c == x && row <= r < y))
          invariant forall c: nat, r: nat :: c < table.cols ==>
            Entry(table.cols, table.rows, c, r) == old(Entry(table.cols, table.rows, c, r))
        {
          table.MarkTaken(x, y);
        }
      }
    }

    /**
     gwmGridLayoutAddLayout: the child goes to the first place, row by row, where
     it meets no other; a span the grid cannot hold is an error.
     */
    method AddLayout(sub: Option<Sizes>, colspan: int, rowspan: int, xCenter: bool, yCenter: bool)
      returns (ok: bool, at: Placed)
      requires Valid()
      modifies this, table
      ensures Valid()
      ensures ok <==> 1 <= colspan <= table.cols && 1 <= rowspan
      ensures !ok ==> placed == old(placed) && table.rows == old(table.rows)
      ensures ok ==>
        && at.child == Child(sub, colspan, rowspan, xCenter, yCenter)
        && placed == old(placed) + [at]
        && Within(at, table.cols, |table.rows|) && Fits(old(placed), at)
        && at.row <= old(|table.rows|)
      ensures ok ==> forall x: nat, y: nat ::
        Before(x, y, at.col, at.row) && x + colspan <= table.cols ==> !Fits(old(placed), Placed(x, y, at.child))
    {
      hide BitsAreCovered, EntriesArePlaced, AllWithin, PairwiseDisjoint, LowestEdge, Fits, Disjoint, Within, TableOk;
      hide Set, Entry, Covered, GridOk, NoneBefore, Spans, Before;
      ok := false;
      at := Placed(0, 0, Child(None, 0, 0, false, false));
      if colspan > table.cols || colspan < 1 || rowspan < 1 { return; }
      var child := Child(sub, colspan, rowspan, xCenter, yCenter);
      var y: nat := 0;
      NoneBeforeFirst(placed, child, table.cols);
      while true
        invariant Valid() && unchanged(this) && unchanged(table)
        invariant 0 <= y <= |table.rows|
        invariant NoneBefore(placed, child, 0, y, table.cols)
        decreases |table.rows| - y
      {
        for x := 0 to table.cols - colspan + 1
          invariant Valid() && unchanged(this) && unchanged(table)
          invariant NoneBefore(placed, child, x, y, table.cols)
          invariant x > 0 ==> y < |table.rows|
        {
          at := Placed(x, y, child);
          IsSpanning(at);
          assert table.Valid() by { GridTable(table.cols, table.rows, placed); }
          var taken := IsRectTaken(x, y, colspan, rowspan);
          TakenIsUnfit(table.cols, table.rows, placed, at);
          if !taken {
            MeansNoneBefore(placed, child, x, y, table.cols);
            PlaceAt(at);
            return true, at;
          }
          OneMoreTried(placed, child, x, y, table.cols);
        }
        RowTried(placed, child, y, table.cols);
        y := y + 1;
      }
    }

    /** The cells are marked and the entry is made. */
    method PlaceAt(at: Placed)
      requires Valid() && Spans(at) && at.col + at.child.colspan <= table.cols && Fits(placed, at)
      modifies this, table
      ensures Valid() && placed == old(placed) + [at] && Within(at, table.cols, |table.rows|)
    {
      hide BitsAreCovered, EntriesArePlaced, AllWithin, PairwiseDisjoint, LowestEdge, Fits, Disjoint, Within, TableOk;
      hide Set, Entry, Covered;
      MarkRectTaken(at.col, at.row, at.child.colspan, at.child.rowspan);
      table.Enter(at.col, at.row, at.child);
      NowPlaced(table.cols, old(table.rows), table.rows, placed, at);
      placed := placed + [at];
    }

    /** gridMinSize: the largest minimum per cell, times the number of columns and rows. */
    method MinSize() returns (width: nat, height: nat, ghost mw: nat, ghost mh: nat)
      requires Valid()
      ensures LargestPerCell(placed, mw, mh)
      ensures width == mw * table.cols && height == mh * |table.rows|
    {
      hide BitsAreCovered, EntriesArePlaced, AllWithin, PairwiseDisjoint, LowestEdge, LargestBefore, LargestPerCell;
      NoneBeforeOrigin(placed);
      var w, h := 0, 0;
      for r := 0 to |table.rows|
        invariant LargestBefore(placed, 0, r, w, h)
      {
        var row := table.rows[r];
        for c := 0 to table.cols
          invariant LargestBefore(placed, c, r, w, h)
        {
          var e := row.ents[c];
          assert Entry(table.cols, table.rows, c, r) == e;
          ghost var w0, h0 := w, h;
          if e.Some? && e.value.layout.Some? {
            InPlaced(table.cols, table.rows, placed, c, r);
            var cw := e.value.layout.value.minWidth / e.value.colspan;
            var ch := e.value.layout.value.minHeight / e.value.rowspan;
            if cw > w { w := cw; }
            if ch > h { h := ch; }
          }
          NextCell(table.cols, table.rows, placed, c, r, w0, h0, w, h);
        }
        NextRow(table.cols, |table.rows|, placed, r, w, h);
      }
      AllBefore(table.cols, |table.rows|, placed, w, h);
      mw, mh := w, h;
      width, height := w * table.cols, h * |table.rows|;
    }

    /** gridRun: the area handed to the child whose first cell is (column, row). */
    method Run(x: int, y: int, width: nat, height: nat) returns (areas: map<(nat, nat), Area>)
      requires Valid()
      ensures forall p :: p in placed && p.child.layout.Some? ==>
        table.cols >= 1 && |table.rows| >= 1 && (p.col, p.row) in areas
        && areas[(p.col, p.row)] == AreaOf(x, y, width / table.cols, height / |table.rows|, p)
      ensures forall k :: k in areas ==> exists p :: p in placed && p.child.layout.Some? && (p.col, p.row) == k
    {
      hide BitsAreCovered, PairwiseDisjoint, LowestEdge, Share, EntriesArePlaced, AreaOf;
      areas := map[];
      RowsNeedColumns(table.cols, table.rows, placed);
      if |table.rows| == 0 { return; }
      var cellWidth, cellHeight := width / table.cols, height / |table.rows|;
      for r := 0 to |table.rows|
        invariant AreasBefore(areas, placed, x, y, cellWidth, cellHeight, 0, r)
      {
        var row := table.rows[r];
        for c := 0 to table.cols
          invariant AreasBefore(areas, placed, x, y, cellWidth, cellHeight, c, r)
        {
          var e := row.ents[c];
          assert Entry(table.cols, table.rows, c, r) == e;
          ghost var areas0 := areas;
          if e.Some? && e.value.layout.Some? {
            areas := areas[(c, r) := AreaOf(x, y, cellWidth, cellHeight, Placed(c, r, e.value))];
          }
          NextArea(table.cols, table.rows, placed, x, y, cellWidth, cellHeight, c, r, areas0, areas);
        }
        NextAreaRow(table.cols, |table.rows|, placed, x, y, cellWidth, cellHeight, r, areas);
      }
    }
  }

  lemma NoneBeforeFirst(ps: seq<Placed>, child: Child, cols: nat)
    ensures NoneBefore(ps, child, 0, 0, cols)
  {
  }

  lemma GridTable(cols: nat, rows: seq<Row<Child>>, placed: seq<Placed>)
    requires GridOk(cols, rows, placed)
    ensures TableOk(cols, rows)
  {
  }

  lemma IsSpanning(p: Placed)
    ensures Spans(p) <==> p.child.colspan >= 1 && p.child.rowspan >= 1
  {
  }

  lemma MeansNoneBefore(ps: seq<Placed>, child: Child, x: nat, y: nat, cols: nat)
    requires NoneBefore(ps, child, x, y, cols)
    ensures forall a: nat, b: nat ::
      Before(a, b, x, y) && a + child.colspan <= cols ==> !Fits(ps, Placed(a, b, child))
  {
  }

  lemma OneMoreTried(ps: seq<Placed>, child: Child, x: nat, y: nat, cols: nat)
    requires NoneBefore(ps, child, x, y, cols) && !Fits(ps, Placed(x, y, child))
    ensures NoneBefore(ps, child, x + 1, y, cols)
  {
  }

  lemma RowTried(ps: seq<Placed>, child: Child, y: nat, cols: nat)
    requires child.colspan <= cols && NoneBefore(ps, child, cols - child.colspan + 1, y, cols)
    ensures NoneBefore(ps, child, 0, y + 1, cols)
  {
  }
}
