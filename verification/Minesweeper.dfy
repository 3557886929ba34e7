/**
 Minesweeper: the board of guiapps/minesweeper.c, its recursive flood fill and
 the win bookkeeping.

 The board is one array of width * height cells in row-major order.  The source
 finds the eight neighbours of a cell by index arithmetic with wrap-around
 guards; `Adjacent` says independently, by row and column, what a neighbour is.
 */
module Minesweeper {

  const CELL_WIDTH := 15
  const CELL_HEIGHT := 15
  const MENU_HEIGHT := 20

  datatype Cell = Cell(isUncovered: bool, hasMine: bool, isFlagged: bool, nOfMines: nat)

  // ----- geometry

  ghost predicate InGrid(w: nat, h: nat, row: int, col: int) {
    0 <= row < h && 0 <= col < w
  }

  /** Cells i and j touch, horizontally, vertically or diagonally. */
  ghost predicate Adjacent(w: nat, h: nat, i: int, j: int)
    requires w > 0
  {
    && 0 <= i < w * h && 0 <= j < w * h && i != j
    && -1 <= j / w - i / w <= 1
    && -1 <= j % w - i % w <= 1
  }

  lemma RowCol(w: nat, row: int, col: int)
    requires 0 <= col < w
    ensures (row * w + col) / w == row && (row * w + col) % w == col
  {
    var i := row * w + col;
    var q, r := i / w, i % w;
    assert q * w + r == row * w + col;
    assert (q - row) * w == col - r;
    if q > row { MulMono(1, q - row, w); assert false; }
    if q < row { MulMono(q - row, -1, w); assert false; }
  }

  lemma MulMono(a: int, b: int, w: nat)
    requires a <= b
    ensures a * w <= b * w
  {
  }

  lemma CellRowCol(w: nat, h: nat, i: int)
    requires w > 0 && 0 <= i < w * h
    ensures 0 <= i / w < h && 0 <= i % w < w && i == (i / w) * w + i % w
  {
    if i / w >= h { MulMono(h, i / w, w); assert false; }
    if i / w < 0 { MulMono(i / w, -1, w); assert false; }
  }

  lemma CellIndex(w: nat, h: nat, row: int, col: int)
    requires InGrid(w, h, row, col)
    ensures 0 <= row * w + col < w * h
  {
    MulMono(0, row, w);
    MulMono(row, h - 1, w);
    assert (h - 1) * w == h * w - w;
  }

  lemma OffsetSplits(w: nat, i: int, dr: int, dc: int)
    requires w > 0
    ensures i + dr * w + dc == (i / w + dr) * w + (i % w + dc)
  {
    assert (i / w + dr) * w == (i / w) * w + dr * w;
    assert i == (i / w) * w + i % w;
  }

  /** The neighbour of i at row distance dr and column distance dc, when it is on the board. */
  lemma OffsetInGrid(w: nat, h: nat, i: int, dr: int, dc: int)
    requires w > 0 && 0 <= i < w * h
    requires InGrid(w, h, i / w + dr, i % w + dc)
    ensures var j := i + dr * w + dc;
            0 <= j < w * h && j / w == i / w + dr && j % w == i % w + dc
  {
    OffsetSplits(w, i, dr, dc);
    RowCol(w, i / w + dr, i % w + dc);
    CellIndex(w, h, i / w + dr, i % w + dc);
  }

  /**
   The wrap-around guard of the source for the neighbour at (dr, dc): the index
   stays on the board and does not cross the left or right edge.
   */
  predicate Guard(w: nat, n: nat, i: int, dr: int, dc: int)
    requires w > 0
  {
    var j := i + dr * w + dc;
    0 <= j < n && (dc == 1 ==> j % w != 0) && (dc == -1 ==> j % w != w - 1)
  }

  /** The index guards are right: they let through exactly the neighbours on the board. */
  lemma GuardIsGeometry(w: nat, h: nat, i: int, dr: int, dc: int)
    requires w > 0 && 0 <= i < w * h && -1 <= dr <= 1 && -1 <= dc <= 1
    ensures Guard(w, w * h, i, dr, dc) <==> InGrid(w, h, i / w + dr, i % w + dc)
  {
    CellRowCol(w, h, i);
    OffsetSplits(w, i, dr, dc);
    EdgeTest(w, h, i / w + dr, i % w, dc, i + dr * w + dc);
  }

  lemma EdgeTest(w: nat, h: nat, row: int, col: int, dc: int, j: int)
    requires 0 <= col < w && -1 <= dc <= 1 && j == row * w + (col + dc)
    ensures 0 <= j < w * h && (dc == 1 ==> j % w != 0) && (dc == -1 ==> j % w != w - 1)
            <==> InGrid(w, h, row, col + dc)
  {
    if col + dc == w {
      RowWraps(w, row, 1);
    } else if col + dc == -1 {
      RowWraps(w, row, -1);
    } else {
      RowCol(w, row, col + dc);
      if InGrid(w, h, row, col + dc) {
        CellIndex(w, h, row, col + dc);
      } else if row < 0 {
        MulMono(row, -1, w);
      } else {
        MulMono(h, row, w);
      }
    }
  }

  /**
   One column past the right edge is column 0 of the next row; one before the left edge
   is the last of the row above.
   */
  lemma RowWraps(w: nat, row: int, dc: int)
    requires w > 0 && (dc == 1 || dc == -1)
    ensures var j := row * w + (if dc == 1 then w else -1);
            j % w == if dc == 1 then 0 else w - 1
  {
    if dc == 1 {
      assert row * w + w == (row + 1) * w + 0;
      RowCol(w, row + 1, 0);
    } else {
      assert row * w - 1 == (row - 1) * w + (w - 1);
      RowCol(w, row - 1, w - 1);
    }
  }

  /** Both together: a guarded offset is a neighbour, and every neighbour is one of the eight. */
  lemma GuardIsAdjacent(w: nat, h: nat, i: int, dr: int, dc: int)
    requires w > 0 && 0 <= i < w * h && -1 <= dr <= 1 && -1 <= dc <= 1 && (dr != 0 || dc != 0)
    ensures Guard(w, w * h, i, dr, dc) ==> Adjacent(w, h, i, i + dr * w + dc)
  {
    GuardIsGeometry(w, h, i, dr, dc);
    if Guard(w, w * h, i, dr, dc) {
      OffsetInGrid(w, h, i, dr, dc);
      assert dr * w + dc != 0 by { NonZeroOffset(w, i, dr, dc); }
    }
  }

  lemma NonZeroOffset(w: nat, i: int, dr: int, dc: int)
    requires w > 0 && (dr != 0 || dc != 0)
    requires (i + dr * w + dc) / w == i / w + dr && (i + dr * w + dc) % w == i % w + dc
    ensures dr * w + dc != 0
  {
  }

  lemma AdjacentIsGuarded(w: nat, h: nat, i: int, j: int)
    requires w > 0 && Adjacent(w, h, i, j)
    ensures var dr, dc := j / w - i / w, j % w - i % w;
            -1 <= dr <= 1 && -1 <= dc <= 1 && (dr != 0 || dc != 0)
            && j == i + dr * w + dc && Guard(w, w * h, i, dr, dc)
  {
    var dr, dc := j / w - i / w, j % w - i % w;
    CellRowCol(w, h, i);
    CellRowCol(w, h, j);
    OffsetSplits(w, i, dr, dc);
    GuardIsGeometry(w, h, i, dr, dc);
  }

  // ----- reachability

  /** One step of the flood: from a zero-count cell to any neighbour. */
  ghost predicate Step(b: seq<Cell>, w: nat, h: nat, i: int, j: int)
    requires w > 0 && |b| == w * h
  {
    Adjacent(w, h, i, j) && b[i].nOfMines == 0
  }

  /** p is a path of neighbours whose cells before the last all have count zero. */
  ghost predicate ZeroPath(b: seq<Cell>, w: nat, h: nat, p: seq<int>)
    requires w > 0 && |b| == w * h
  {
    && |p| > 0 && 0 <= p[0] < |b|
    && forall k :: 0 <= k < |p| - 1 ==> Step(b, w, h, p[k], p[k + 1])
  }

  ghost predicate ZeroReach(b: seq<Cell>, w: nat, h: nat, i: int, j: int)
    requires w > 0 && |b| == w * h
  {
    exists p :: ZeroPath(b, w, h, p) && p[0] == i && p[|p| - 1] == j
  }

  lemma ReachSelf(b: seq<Cell>, w: nat, h: nat, i: int)
    requires w > 0 && |b| == w * h && 0 <= i < |b|
    ensures ZeroReach(b, w, h, i, i)
  {
    assert ZeroPath(b, w, h, [i]);
    var p := [i];
    assert p[0] == i && p[|p| - 1] == i;
  }

  lemma ReachStep(b: seq<Cell>, w: nat, h: nat, i: int, j: int, k: int)
    requires w > 0 && |b| == w * h
    requires ZeroReach(b, w, h, i, j) && Step(b, w, h, j, k)
    ensures ZeroReach(b, w, h, i, k)
  {
    var p :| ZeroPath(b, w, h, p) && p[0] == i && p[|p| - 1] == j;
    var q := p + [k];
    assert forall m :: 0 <= m < |q| - 1 ==> Step(b, w, h, q[m], q[m + 1]);
    assert ZeroPath(b, w, h, q) && q[0] == i && q[|q| - 1] == k;
  }

  // ----- counting by sets of cells

  ghost function Mines(b: seq<Cell>): set<int> { set k | 0 <= k < |b| && b[k].hasMine }
  ghost function Covered(b: seq<Cell>): set<int> { set k | 0 <= k < |b| && !b[k].isUncovered }
  ghost function OpenSafe(b: seq<Cell>): set<int> { set k | 0 <= k < |b| && b[k].isUncovered && !b[k].hasMine }
  ghost function Flagged(b: seq<Cell>): set<int> { set k | 0 <= k < |b| && b[k].isFlagged }
  ghost function FlaggedMines(b: seq<Cell>): set<int> { set k | 0 <= k < |b| && b[k].isFlagged && b[k].hasMine }

  /** The mines around cell i. */
  ghost function MinesAround(b: seq<Cell>, w: nat, h: nat, i: int): set<int>
    requires w > 0 && |b| == w * h
  {
    set j | 0 <= j < |b| && Adjacent(w, h, i, j) && b[j].hasMine
  }

  ghost predicate CountsRight(b: seq<Cell>, w: nat, h: nat)
    requires w > 0 && |b| == w * h
  {
    forall i :: 0 <= i < |b| ==> b[i].nOfMines == |MinesAround(b, w, h, i)|
  }

  lemma MineIsCounted(b: seq<Cell>, w: nat, h: nat, i: int, j: int)
    requires w > 0 && |b| == w * h && Adjacent(w, h, i, j) && b[j].hasMine
    ensures |MinesAround(b, w, h, i)| > 0
  {
    assert j in MinesAround(b, w, h, i);
  }

  /** With right counts no flood step enters a mine. */
  lemma ZeroStepIsSafe(b: seq<Cell>, w: nat, h: nat, i: int, j: int)
    requires w > 0 && |b| == w * h && CountsRight(b, w, h) && Step(b, w, h, i, j)
    ensures !b[j].hasMine
  {
    if b[j].hasMine {
      MineIsCounted(b, w, h, i, j);
      assert false;
    }
  }

  // ----- what one stretch of the flood may do to the board

  /** b differs from a only in that more cells are uncovered. */
  ghost predicate Grows(a: seq<Cell>, b: seq<Cell>) {
    && |a| == |b|
    && forall k :: 0 <= k < |a| ==>
         && b[k] == a[k].(isUncovered := b[k].isUncovered)
         && (a[k].isUncovered ==> b[k].isUncovered)
  }

  /** Every safe neighbour of cell i is uncovered, unless i has mines around it. */
  ghost predicate Spread(b: seq<Cell>, w: nat, h: nat, i: int)
    requires w > 0 && |b| == w * h
  {
    forall j :: 0 <= j < |b| && Step(b, w, h, i, j) && !b[j].hasMine ==> b[j].isUncovered
  }

  /**
   From a to b the flood started at src only uncovered safe cells it can reach,
   and finished the neighbourhood of every zero-count cell it uncovered.
   */
  ghost predicate Flooded(a: seq<Cell>, b: seq<Cell>, w: nat, h: nat, src: int)
    requires w > 0 && |a| == w * h
  {
    && Grows(a, b)
    && forall k :: 0 <= k < |a| && b[k].isUncovered && !a[k].isUncovered ==>
         !a[k].hasMine && ZeroReach(a, w, h, src, k) && Spread(b, w, h, k)
  }

  lemma ReachIgnoresCovers(a: seq<Cell>, b: seq<Cell>, w: nat, h: nat, i: int, j: int)
    requires w > 0 && |a| == w * h && Grows(a, b)
    ensures ZeroReach(a, w, h, i, j) <==> ZeroReach(b, w, h, i, j)
  {
    if ZeroReach(a, w, h, i, j) {
      var p :| ZeroPath(a, w, h, p) && p[0] == i && p[|p| - 1] == j;
      assert forall k :: 0 <= k < |p| - 1 && Step(a, w, h, p[k], p[k + 1]) ==> Step(b, w, h, p[k], p[k + 1]);
      assert ZeroPath(b, w, h, p);
    }
    if ZeroReach(b, w, h, i, j) {
      var p :| ZeroPath(b, w, h, p) && p[0] == i && p[|p| - 1] == j;
      assert forall k :: 0 <= k < |p| - 1 && Step(b, w, h, p[k], p[k + 1]) ==> Step(a, w, h, p[k], p[k + 1]);
      assert ZeroPath(a, w, h, p);
    }
  }

  lemma SpreadGrows(a: seq<Cell>, b: seq<Cell>, w: nat, h: nat, i: int)
    requires w > 0 && |a| == w * h && Grows(a, b) && Spread(a, w, h, i)
    ensures Spread(b, w, h, i)
  {
    forall j | 0 <= j < |b| && Step(b, w, h, i, j) && !b[j].hasMine
      ensures b[j].isUncovered
    {
      assert Step(a, w, h, i, j);
    }
  }

  lemma FloodedTransitive(a: seq<Cell>, b: seq<Cell>, c: seq<Cell>, w: nat, h: nat, src: int)
    requires w > 0 && |a| == w * h
    requires Flooded(a, b, w, h, src) && Flooded(b, c, w, h, src)
    ensures Flooded(a, c, w, h, src)
  {
    forall k | 0 <= k < |a| && c[k].isUncovered && !a[k].isUncovered
      ensures !a[k].hasMine && ZeroReach(a, w, h, src, k) && Spread(c, w, h, k)
    {
      ReachIgnoresCovers(a, b, w, h, src, k);
      if b[k].isUncovered {
        SpreadGrows(b, c, w, h, k);
      }
    }
  }

  lemma FloodedReflexive(a: seq<Cell>, w: nat, h: nat, src: int)
    requires w > 0 && |a| == w * h
    ensures Flooded(a, a, w, h, src)
  {
  }

  lemma FloodedGrows(a: seq<Cell>, b: seq<Cell>, w: nat, h: nat, src: int)
    requires w > 0 && |a| == w * h && Flooded(a, b, w, h, src)
    ensures Grows(a, b)
  {
  }

  lemma GrowsCoveredSmaller(a: seq<Cell>, b: seq<Cell>)
    requires Grows(a, b)
    ensures Covered(b) <= Covered(a) && |Covered(b)| <= |Covered(a)|
  {
    CardMono(Covered(b), Covered(a));
  }

  lemma CardMono(s: set<int>, t: set<int>)
    requires s <= t
    ensures |s| <= |t|
    ensures |s| == |t| ==> s == t
  {
    assert t == s + (t - s);
    assert |t| == |s| + |t - s|;
    if |s| == |t| { assert t - s == {}; }
  }

  lemma UncoverOne(a: seq<Cell>, j: int)
    requires 0 <= j < |a| && !a[j].isUncovered
    ensures var b := a[j := a[j].(isUncovered := true)];
            && |Covered(b)| == |Covered(a)| - 1
            && |OpenSafe(b)| == |OpenSafe(a)| + (if a[j].hasMine then 0 else 1)
            && Mines(b) == Mines(a) && Flagged(b) == Flagged(a) && FlaggedMines(b) == FlaggedMines(a)
  {
    var b := a[j := a[j].(isUncovered := true)];
    assert Covered(b) == Covered(a) - {j};
    assert OpenSafe(b) == if a[j].hasMine then OpenSafe(a) else OpenSafe(a) + {j};
  }

  // ----- consequences of a finished flood

  /** A set closed under flood steps holds everything reachable from any of its cells. */
  lemma {:induction false} ClosedHoldsPath(b: seq<Cell>, w: nat, h: nat, p: seq<int>, n: nat)
    requires w > 0 && |b| == w * h && ZeroPath(b, w, h, p) && n < |p|
    requires b[p[0]].isUncovered && !b[p[0]].hasMine && CountsRight(b, w, h)
    requires forall k :: 0 <= k < |b| && b[k].isUncovered && !b[k].hasMine ==> Spread(b, w, h, k)
    ensures 0 <= p[n] < |b| && b[p[n]].isUncovered && !b[p[n]].hasMine
  {
    if n > 0 {
      ClosedHoldsPath(b, w, h, p, n - 1);
      assert Step(b, w, h, p[n - 1], p[n]);
      ZeroStepIsSafe(b, w, h, p[n - 1], p[n]);
    }
  }

  lemma CountsIgnoreCovers(a: seq<Cell>, b: seq<Cell>, w: nat, h: nat)
    requires w > 0 && |a| == w * h && |b| == |a| && CountsRight(a, w, h)
    requires forall k :: 0 <= k < |a| ==> b[k].hasMine == a[k].hasMine && b[k].nOfMines == a[k].nOfMines
    ensures CountsRight(b, w, h)
  {
    forall i | 0 <= i < |b|
      ensures b[i].nOfMines == |MinesAround(b, w, h, i)|
    {
      assert MinesAround(b, w, h, i) == MinesAround(a, w, h, i);
    }
  }

  /** Every safe uncovered zero-count cell has all its neighbours uncovered. */
  ghost predicate AllSpread(b: seq<Cell>, w: nat, h: nat)
    requires w > 0 && |b| == w * h
  {
    forall k :: 0 <= k < |b| && b[k].isUncovered && !b[k].hasMine ==> Spread(b, w, h, k)
  }

  /**
   The flood is exact.  Let cell i of an all-spread board be uncovered and the
   flood run from it to completion: the cells uncovered afterwards are those
   uncovered before and those reachable from i.
   */
  lemma FloodIsExact(a: seq<Cell>, a': seq<Cell>, b: seq<Cell>, w: nat, h: nat, i: int)
    requires w > 0 && |a| == w * h && CountsRight(a, w, h) && AllSpread(a, w, h)
    requires 0 <= i < |a| && !a[i].hasMine && a' == a[i := a[i].(isUncovered := true)]
    requires Flooded(a', b, w, h, i) && Spread(b, w, h, i)
    ensures AllSpread(b, w, h)
    ensures forall k :: 0 <= k < |a| ==> (b[k].isUncovered <==> a[k].isUncovered || ZeroReach(a, w, h, i, k))
  {
    assert Grows(a, a');
    assert Grows(a, b);
    CountsIgnoreCovers(a, b, w, h);
    ReachSelf(a, w, h, i);
    forall k | 0 <= k < |b| && b[k].isUncovered && !b[k].hasMine
      ensures Spread(b, w, h, k)
    {
      if a[k].isUncovered { SpreadGrows(a, b, w, h, k); }
    }
    forall k | 0 <= k < |a|
      ensures b[k].isUncovered <==> a[k].isUncovered || ZeroReach(a, w, h, i, k)
    {
      ReachIgnoresCovers(a, a', w, h, i, k);
      ReachIgnoresCovers(a, b, w, h, i, k);
      if ZeroReach(b, w, h, i, k) {
        var p :| ZeroPath(b, w, h, p) && p[0] == i && p[|p| - 1] == k;
        ClosedHoldsPath(b, w, h, p, |p| - 1);
      }
    }
  }

  // ----- counting the mines around a cell

  /** The eight offsets in the order the source tests them. */
  const OFFSETS: seq<(int, int)> :=
    [(0, 1), (0, -1), (1, 0), (1, -1), (1, 1), (-1, 0), (-1, -1), (-1, 1)]

  ghost predicate IsOffset(d: (int, int)) {
    -1 <= d.0 <= 1 && -1 <= d.1 <= 1 && d != (0, 0)
  }

  lemma OffsetsComplete(d: (int, int))
    ensures IsOffset(d) <==> d in OFFSETS
  {
    if IsOffset(d) {
      assert d == OFFSETS[0] || d == OFFSETS[1] || d == OFFSETS[2] || d == OFFSETS[3]
          || d == OFFSETS[4] || d == OFFSETS[5] || d == OFFSETS[6] || d == OFFSETS[7];
    }
  }

  /** The mines among the first n offsets of cell i. */
  ghost function MinesSeen(b: seq<Cell>, w: nat, h: nat, i: int, n: nat): set<int>
    requires w > 0 && |b| == w * h && n <= |OFFSETS|
  {
    set j | j in MinesAround(b, w, h, i) && (j / w - i / w, j % w - i % w) in OFFSETS[..n]
  }

  /** The cell at an offset is a fresh mine to count, exactly when the guard lets it through and it has one. */
  lemma SeenAt(b: seq<Cell>, w: nat, h: nat, i: int, d: (int, int), j: int)
    requires w > 0 && |b| == w * h && 0 <= i < |b| && IsOffset(d)
    ensures j in MinesAround(b, w, h, i) && (j / w - i / w, j % w - i % w) == d
            <==> Guard(w, |b|, i, d.0, d.1) && j == i + d.0 * w + d.1 && b[j].hasMine
  {
    if j in MinesAround(b, w, h, i) && (j / w - i / w, j % w - i % w) == d {
      AdjacentIsGuarded(w, h, i, j);
    }
    if Guard(w, |b|, i, d.0, d.1) && j == i + d.0 * w + d.1 {
      GuardIsGeometry(w, h, i, d.0, d.1);
      GuardIsAdjacent(w, h, i, d.0, d.1);
      OffsetInGrid(w, h, i, d.0, d.1);
    }
  }

  lemma OffsetIsNew(n: nat)
    requires n < |OFFSETS|
    ensures OFFSETS[..n + 1] == OFFSETS[..n] + [OFFSETS[n]] && OFFSETS[n] !in OFFSETS[..n]
  {
  }

  lemma {:induction false} SeenOneMore(b: seq<Cell>, w: nat, h: nat, i: int, n: nat)
    requires w > 0 && |b| == w * h && n < |OFFSETS| && 0 <= i < |b|
    ensures var (dr, dc) := OFFSETS[n]; var j := i + dr * w + dc;
            |MinesSeen(b, w, h, i, n + 1)| ==
              |MinesSeen(b, w, h, i, n)| + (if Guard(w, |b|, i, dr, dc) && b[j].hasMine then 1 else 0)
  {
    hide MinesAround, MinesSeen;
    var d := OFFSETS[n];
    var j := i + d.0 * w + d.1;
    var old', new' := MinesSeen(b, w, h, i, n), MinesSeen(b, w, h, i, n + 1);
    forall k ensures k in new' <==> k in old' || (k == j && Guard(w, |b|, i, d.0, d.1) && b[j].hasMine) {
      SeenMember(b, w, h, i, n, k);
    }
    SeenMember(b, w, h, i, n, j);
    if Guard(w, |b|, i, d.0, d.1) && b[j].hasMine {
      assert new' == old' + {j};
    } else {
      assert new' == old';
    }
  }

  lemma {:induction false} SeenMember(b: seq<Cell>, w: nat, h: nat, i: int, n: nat, k: int)
    requires w > 0 && |b| == w * h && n < |OFFSETS| && 0 <= i < |b|
    ensures var (dr, dc) := OFFSETS[n];
            var fresh' := k == i + dr * w + dc && Guard(w, |b|, i, dr, dc) && b[k].hasMine;
            && (k in MinesSeen(b, w, h, i, n + 1) <==> k in MinesSeen(b, w, h, i, n) || fresh')
            && !(k in MinesSeen(b, w, h, i, n) && fresh')
  {
    hide MinesAround;
    OffsetsComplete(OFFSETS[n]);
    OffsetIsNew(n);
    SeenAt(b, w, h, i, OFFSETS[n], k);
  }

  lemma SeenAll(b: seq<Cell>, w: nat, h: nat, i: int)
    requires w > 0 && |b| == w * h
    ensures MinesSeen(b, w, h, i, 0) == {} && MinesSeen(b, w, h, i, |OFFSETS|) == MinesAround(b, w, h, i)
  {
    assert OFFSETS[..|OFFSETS|] == OFFSETS;
    forall j | j in MinesAround(b, w, h, i)
      ensures (j / w - i / w, j % w - i % w) in OFFSETS
    {
      AdjacentIsGuarded(w, h, i, j);
      OffsetsComplete((j / w - i / w, j % w - i % w));
    }
  }

  lemma MinesTotal(b: seq<Cell>)
    ensures |Mines(b)| + |SafeCells(b)| == |b|
  {
    assert Mines(b) + SafeCells(b) == Indices(|b|);
  }

  ghost function Indices(n: nat): (s: set<int>)
    ensures |s| == n && forall k :: k in s <==> 0 <= k < n
  {
    if n == 0 then {} else Indices(n - 1) + {n - 1}
  }

  ghost function SafeCells(b: seq<Cell>): set<int> { set k | 0 <= k < |b| && !b[k].hasMine }

  /** The counter test of leftClick finds out whether every safe cell is open. */
  lemma WinTestIsRight(b: seq<Cell>)
    ensures |b| - |Mines(b)| == |OpenSafe(b)| <==> OpenSafe(b) == SafeCells(b)
  {
    MinesTotal(b);
    CardMono(OpenSafe(b), SafeCells(b));
  }

  // ----- boards, clicks and shuffles

  ghost predicate Blank(c: Cell) {
    !c.isUncovered && !c.isFlagged && c.nOfMines == 0
  }

  function Swapped(a: seq<Cell>, i: int, j: int): seq<Cell>
    requires 0 <= i < |a| && 0 <= j < |a|
  {
    a[i := a[i].(hasMine := a[j].hasMine)][j := a[j].(hasMine := a[i].hasMine)]
  }

  /** The cell drawn for cell i: that one or a later one. */
  function Pick(r: nat, i: nat, n: nat): (j: nat)
    requires i < n
    ensures i <= j < n
  {
    i + r % (n - i)
  }

  /** The board after an exchange for every random number. */
  function Shuffled(b: seq<Cell>, rnd: seq<nat>): (c: seq<Cell>)
    requires |rnd| <= |b|
    ensures |c| == |b|
  {
    if rnd == [] then b
    else
      var i := |rnd| - 1;
      Swapped(Shuffled(b, rnd[..i]), i, Pick(rnd[i], i, |b|))
  }

  /** The neighbour at offset d needs no more work for the flood at cell i. */
  ghost predicate Tried(b: seq<Cell>, w: nat, i: int, d: (int, int))
    requires w > 0 && 0 <= i < |b|
  {
    var j := i + d.0 * w + d.1;
    Guard(w, |b|, i, d.0, d.1) && b[i].nOfMines == 0 && !b[j].hasMine ==> b[j].isUncovered
  }

  ghost predicate MineOpen(b: seq<Cell>) {
    exists k :: 0 <= k < |b| && b[k].isUncovered && b[k].hasMine
  }

  /** The board part of the invariant: counts right, flood complete. */
  ghost predicate BoardOk(b: seq<Cell>, w: nat, h: nat)
    requires w > 0 && |b| == w * h
  {
    CountsRight(b, w, h) && AllSpread(b, w, h)
  }

  /** What a click on a covered, unflagged cell i does to the board. */
  ghost predicate Clicked(a: seq<Cell>, b: seq<Cell>, w: nat, h: nat, i: int)
    requires w > 0 && |a| == w * h && 0 <= i < |a|
  {
    && Grows(a, b)
    && forall k :: 0 <= k < |a| ==>
         (b[k].isUncovered <==> a[k].isUncovered || (if a[i].hasMine then k == i else ZeroReach(a, w, h, i, k)))
  }

  // ----- the game

  class Game {
    var width: nat
    var height: nat
    var totalMines: nat
    var board: array<Cell>
    var gameOver: bool
    var gameWon: bool
    var numFlags: int
    var succFlags: int
    var totalUncovered: int

    ghost predicate Shape()
      reads this
    {
      width > 0 && height > 0 && board.Length == width * height
    }

    /** The state between two events. */
    ghost predicate Valid()
      reads this, board
    {
      var b := board[..];
      && Shape()
      && BoardOk(b, width, height)
      && |Mines(b)| == totalMines < width * height
      && totalUncovered == |OpenSafe(b)|
      && (gameWon <==> OpenSafe(b) == SafeCells(b))
      && (gameOver <==> gameWon || MineOpen(b))
      && numFlags == |Flagged(b)|
      && succFlags == |FlaggedMines(b)|
    }

    ghost function CoveredCount(): nat
      reads this, board
    {
      |Covered(board[..])|
    }

    /** One of the eight blocks of emptyFieldsFill: the neighbour of i at (dr, dc). */
    method TryUncover(i: int, dr: int, dc: int, ghost src: int)
      requires Shape() && 0 <= i < board.Length && IsOffset((dr, dc))
      requires ZeroReach(board[..], width, height, src, i)
      modifies board, this`totalUncovered
      ensures Flooded(old(board[..]), board[..], width, height, src)
      ensures totalUncovered - old(totalUncovered) == |OpenSafe(board[..])| - |OpenSafe(old(board[..]))|
      ensures Tried(board[..], width, i, (dr, dc))
      decreases CoveredCount(), 0
    {
      hide Flooded, Spread, ZeroReach, OpenSafe, Covered, Guard, Tried, IsOffset;
      FloodedReflexive(board[..], width, height, src);
      var j := i + dr * width + dc;
      GuardIs(width, board.Length, i, dr, dc);
      TriedIs(board[..], width, i, dr, dc);
      if 0 <= j < width * height && (dc == 1 ==> j % width != 0) && (dc == -1 ==> j % width != width - 1) {
        if !board[j].hasMine && !board[j].isUncovered {
          if board[i].nOfMines == 0 {
            ghost var a := board[..];
            board[j] := board[j].(isUncovered := true);
            totalUncovered := totalUncovered + 1;
            ghost var a' := board[..];
            assert a' == a[j := a[j].(isUncovered := true)];
            UncoverOne(a, j);
            ReachNeighbour(a, width, height, src, i, dr, dc);
            ReachIgnoresCovers(a, a', width, height, src, j);
            FloodedReflexive(a', width, height, src);
            if board[j].nOfMines == 0 {
              EmptyFieldsFill(j, src);
            }
            FloodedGrows(a', board[..], width, height, src);
            FloodFromOpened(a, a', board[..], width, height, src, j);
            TriedIs(board[..], width, i, dr, dc);
          }
        }
      }
    }

    /** emptyFieldsFill: uncover the safe region around a zero-count cell. */
    method EmptyFieldsFill(i: int, ghost src: int)
      requires Shape() && 0 <= i < board.Length
      requires ZeroReach(board[..], width, height, src, i)
      modifies board, this`totalUncovered
      ensures Flooded(old(board[..]), board[..], width, height, src)
      ensures Spread(board[..], width, height, i)
      ensures totalUncovered - old(totalUncovered) == |OpenSafe(board[..])| - |OpenSafe(old(board[..]))|
      decreases CoveredCount(), 1
    {
      hide Flooded, Spread, Tried, ZeroReach, OpenSafe, Covered;
      ghost var b0 := board[..];
      FloodedReflexive(b0, width, height, src);
      TryUncover(i, 0, 1, src);
      Continue(b0, b0, board[..], width, height, src, i, 0);
      ghost var b1 := board[..];
      TryUncover(i, 0, -1, src);
      Continue(b0, b1, board[..], width, height, src, i, 1);
      ghost var b2 := board[..];
      TryUncover(i, 1, 0, src);
      Continue(b0, b2, board[..], width, height, src, i, 2);
      ghost var b3 := board[..];
      TryUncover(i, 1, -1, src);
      Continue(b0, b3, board[..], width, height, src, i, 3);
      ghost var b4 := board[..];
      TryUncover(i, 1, 1, src);
      Continue(b0, b4, board[..], width, height, src, i, 4);
      ghost var b5 := board[..];
      TryUncover(i, -1, 0, src);
      Continue(b0, b5, board[..], width, height, src, i, 5);
      ghost var b6 := board[..];
      TryUncover(i, -1, -1, src);
      Continue(b0, b6, board[..], width, height, src, i, 6);
      ghost var b7 := board[..];
      TryUncover(i, -1, 1, src);
      Continue(b0, b7, board[..], width, height, src, i, 7);
      AllOffsetsSpread(board[..], width, height, i);
    }

    /** The cell under window position (x, y), if there is one. */
    predicate Hits(x: int, y: int)
      reads this
    {
      0 <= x < width * CELL_WIDTH && MENU_HEIGHT <= y && y - MENU_HEIGHT < height * CELL_HEIGHT
    }

    function CellAt(x: int, y: int): (i: int)
      requires Shape() && Hits(x, y)
      reads this
      ensures 0 <= i < width * height
      ensures i % width == x / CELL_WIDTH && i / width == (y - MENU_HEIGHT) / CELL_HEIGHT
    {
      var col, row := x / CELL_WIDTH, (y - MENU_HEIGHT) / CELL_HEIGHT;
      CellIndex(width, height, row, col);
      RowCol(width, row, col);
      col + row * width
    }

    /** The part of leftClick that runs once the cell is known to be covered and unflagged. */
    method Open(i: int)
      requires Valid() && 0 <= i < board.Length && !board[i].isUncovered && !board[i].isFlagged
      modifies this`gameOver, this`gameWon, this`totalUncovered, board
      ensures Valid() && Clicked(old(board[..]), board[..], width, height, i)
      ensures !old(gameOver) && gameWon ==> !MineOpen(board[..])
    {
      hide BoardOk, Clicked, MineOpen, Mines, SafeCells, OpenSafe, Flagged, FlaggedMines, Flooded, Spread, ZeroReach;
      ghost var a := board[..];
      board[i] := board[i].(isUncovered := true);
      ghost var a' := board[..];
      assert a' == a[i := a[i].(isUncovered := true)];
      UncoverOne(a, i);
      if board[i].hasMine {
        gameOver := true;
        MineClick(a, a', width, height, i);
      } else {
        totalUncovered := totalUncovered + 1;
        ReachSelf(a', width, height, i);
        EmptyFieldsFill(i, i);
        SafeClick(a, a', board[..], width, height, i);
      }
      ClickGrows(a, board[..], width, height, i);
      WinTestIsRight(a);
      WinTestIsRight(board[..]);
      if width * height - totalMines == totalUncovered {
        gameWon := true;
        gameOver := true;
      }
    }

    /**
     leftClick.  A click outside the board, on an uncovered cell or on a flag
     changes nothing; a click on a mine uncovers just that mine; a click on a
     safe cell uncovers it and exactly what the flood can reach from it.
     */
    method LeftClick(x: int, y: int)
      requires Valid()
      modifies this`gameOver, this`gameWon, this`totalUncovered, board
      ensures Valid()
      ensures Hits(x, y) && old(board[CellAt(x, y)].isUncovered == board[CellAt(x, y)].isFlagged == false) ==>
                Clicked(old(board[..]), board[..], width, height, CellAt(x, y))
      ensures !Hits(x, y) || old(board[CellAt(x, y)].isUncovered || board[CellAt(x, y)].isFlagged) ==>
                board[..] == old(board[..]) && gameOver == old(gameOver) && gameWon == old(gameWon)
      ensures !old(gameOver) && gameWon ==> !MineOpen(board[..])
    {
      assert Shape();
      hide Valid;
      if x < 0 || x >= width * CELL_WIDTH || y < MENU_HEIGHT || y - MENU_HEIGHT >= height * CELL_HEIGHT {
        return;
      }
      assert Hits(x, y);
      var i := CellAt(x, y);
      if !board[i].isUncovered && !board[i].isFlagged {
        Open(i);
      }
    }

    /** rightClick: put a flag on a covered cell, or take it off. */
    method RightClick(x: int, y: int)
      requires Valid()
      modifies this`numFlags, this`succFlags, board
      ensures Valid()
      ensures Hits(x, y) && old(!board[CellAt(x, y)].isUncovered) ==>
                var a, i := old(board[..]), CellAt(x, y); board[..] == a[i := a[i].(isFlagged := !a[i].isFlagged)]
      ensures !Hits(x, y) || old(board[CellAt(x, y)].isUncovered) ==> board[..] == old(board[..])
    {
      hide BoardOk, MineOpen, Mines, SafeCells, OpenSafe, Flagged, FlaggedMines;
      if x < 0 || x >= width * CELL_WIDTH || y < MENU_HEIGHT || y - MENU_HEIGHT >= height * CELL_HEIGHT {
        return;
      }
      assert Hits(x, y);
      var i := CellAt(x, y);
      if !board[i].isUncovered {
        ghost var a := board[..];
        FlagOne(a, width, height, i);
        if !board[i].isFlagged {
          board[i] := board[i].(isFlagged := true);
          numFlags := numFlags + 1;
          if board[i].hasMine { succFlags := succFlags + 1; }
        } else {
          board[i] := board[i].(isFlagged := false);
          numFlags := numFlags - 1;
          if board[i].hasMine { succFlags := succFlags - 1; }
        }
        assert board[..] == a[i := a[i].(isFlagged := !a[i].isFlagged)];
      }
    }

    /** The mouse part of eventHandler: clicks count only while the game is on. */
    method MouseUp(left: bool, x: int, y: int)
      requires Valid()
      modifies this, board
      ensures Valid() && board == old(board) && width == old(width) && height == old(height)
      ensures old(gameOver) ==> board[..] == old(board[..]) && gameWon == old(gameWon) && gameOver
      ensures !old(gameOver) ==> (gameWon <==> !MineOpen(board[..]) && OpenSafe(board[..]) == SafeCells(board[..]))
      ensures !old(gameOver) && left && Hits(x, y)
              && old(!board[CellAt(x, y)].isUncovered && !board[CellAt(x, y)].isFlagged) ==>
        Clicked(old(board[..]), board[..], width, height, CellAt(x, y))
      ensures !old(gameOver) && !left && Hits(x, y) && old(!board[CellAt(x, y)].isUncovered) ==>
        var a, i := old(board[..]), CellAt(x, y); board[..] == a[i := a[i].(isFlagged := !a[i].isFlagged)]
    {
      if !gameOver {
        if left { LeftClick(x, y); } else { RightClick(x, y); }
      }
    }

    /** One of the eight tests of the counting loop of resetBoard. */
    method CountOne(i: int, dr: int, dc: int, ghost n: nat)
      requires Shape() && 0 <= i < board.Length && n < |OFFSETS| && OFFSETS[n] == (dr, dc)
      requires board[i].nOfMines == |MinesSeen(board[..], width, height, i, n)|
      modifies board
      ensures board[..] == old(board[..])[i := old(board[i]).(nOfMines := board[i].nOfMines)]
      ensures board[i].nOfMines == |MinesSeen(board[..], width, height, i, n + 1)|
    {
      ghost var a := board[..];
      SeenOneMore(a, width, height, i, n);
      var j := i + dr * width + dc;
      if 0 <= j < width * height && (dc == 1 ==> j % width != 0) && (dc == -1 ==> j % width != width - 1) {
        if board[j].hasMine {
          board[i] := board[i].(nOfMines := board[i].nOfMines + 1);
        }
      }
      assert board[..] == a[i := a[i].(nOfMines := board[i].nOfMines)];
      SeenIgnoresCounts(a, board[..], width, height, i, n + 1);
    }

    method CountMines(i: int)
      requires Shape() && 0 <= i < board.Length && board[i].nOfMines == 0
      modifies board
      ensures board[..] ==
        old(board[..])[i := old(board[i]).(nOfMines := |MinesAround(old(board[..]), width, height, i)|)]
    {
      hide MinesSeen, MinesAround;
      ghost var a := board[..];
      SeenAll(a, width, height, i);
      CountOne(i, 0, 1, 0);
      CountOne(i, 0, -1, 1);
      CountOne(i, 1, 0, 2);
      CountOne(i, 1, -1, 3);
      CountOne(i, 1, 1, 4);
      CountOne(i, -1, 0, 5);
      CountOne(i, -1, -1, 6);
      CountOne(i, -1, 1, 7);
      assert board[..] == a[i := a[i].(nOfMines := board[i].nOfMines)];
      SeenAll(board[..], width, height, i);
      AroundIgnoresCounts(a, board[..], width, height, i);
    }

    /** The shuffle loop of resetBoard: exchange each cell's mine with that of a random later cell. */
    method Shuffle(rnd: seq<nat>)
      requires Shape() && |rnd| == board.Length && forall k :: 0 <= k < board.Length ==> Blank(board[k])
      modifies board
      ensures board[..] == Shuffled(old(board[..]), rnd)
      ensures forall k :: 0 <= k < board.Length ==> Blank(board[k])
      ensures |Mines(board[..])| == |Mines(old(board[..]))|
    {
      hide Mines;
      var n := board.Length;
      assert rnd[..0] == [];
      for i := 0 to n
        invariant board[..] == Shuffled(old(board[..]), rnd[..i])
      {
        var j := Pick(rnd[i], i, n);
        ghost var a := board[..];
        assert rnd[..i + 1][..i] == rnd[..i];
        var k := board[i].hasMine;
        board[i] := board[i].(hasMine := board[j].hasMine);
        board[j] := board[j].(hasMine := k);
        assert board[..] == Swapped(a, i, j);
      }
      assert rnd[..n] == rnd;
      ShuffledKeeps(old(board[..]), rnd);
    }

    /** The counting loop of resetBoard. */
    method CountAll()
      requires Shape() && forall k :: 0 <= k < board.Length ==> Blank(board[k])
      modifies board
      ensures forall k :: 0 <= k < board.Length ==>
                board[k] == old(board[k]).(nOfMines := |MinesAround(old(board[..]), width, height, k)|)
    {
      hide MinesAround;
      ghost var a := board[..];
      for i := 0 to board.Length
        invariant forall k :: 0 <= k < i ==> board[k] == a[k].(nOfMines := |MinesAround(a, width, height, k)|)
        invariant forall k :: i <= k < board.Length ==> board[k] == a[k]
      {
        ghost var b := board[..];
        CountMines(i);
        AroundIgnoresCounts(a, b, width, height, i);
      }
    }

    /**
     resetBoard: lay the mines in the first cells, shuffle them with the random
     numbers drawn, count the mines around every cell.
     */
    method ResetBoard(rnd: seq<nat>)
      requires width > 0 && height > 0 && totalMines < width * height && |rnd| == width * height
      modifies this
      ensures Valid() && fresh(board) && !gameOver && !gameWon
      ensures width == old(width) && height == old(height) && totalMines == old(totalMines)
      ensures forall k :: 0 <= k < board.Length ==> !board[k].isUncovered && !board[k].isFlagged
    {
      hide BoardOk, MineOpen, Mines, SafeCells, OpenSafe, Flagged, FlaggedMines, MinesAround;
      var n, m := width * height, totalMines;
      board := new Cell[n](i requires 0 <= i < n => Cell(false, i < m, false, 0));
      LaidMines(board[..], totalMines);
      Shuffle(rnd);
      ghost var a := board[..];
      CountAll();
      gameWon := false;
      gameOver := false;
      numFlags := 0;
      succFlags := 0;
      totalUncovered := 0;
      FreshBoardOk(a, board[..], width, height);
    }
  }

  lemma {:induction false} FlagOne(a: seq<Cell>, w: nat, h: nat, i: int)
    requires w > 0 && |a| == w * h && 0 <= i < |a| && BoardOk(a, w, h)
    ensures var b := a[i := a[i].(isFlagged := !a[i].isFlagged)];
            && BoardOk(b, w, h) && Mines(b) == Mines(a) && OpenSafe(b) == OpenSafe(a) && SafeCells(b) == SafeCells(a)
            && (MineOpen(b) <==> MineOpen(a))
            && |Flagged(b)| == |Flagged(a)| + (if a[i].isFlagged then -1 else 1)
            && |FlaggedMines(b)| == |FlaggedMines(a)| + (if !a[i].hasMine then 0 else if a[i].isFlagged then -1 else 1)
  {
    hide BoardOk, Mines, OpenSafe, SafeCells, MineOpen, Flagged, FlaggedMines;
    var b := a[i := a[i].(isFlagged := !a[i].isFlagged)];
    FlagKeepsBoard(a, b, w, h);
    FlagKeepsOpen(a, b);
    FlagCounts(a, i);
  }

  lemma FlagCounts(a: seq<Cell>, i: int)
    requires 0 <= i < |a|
    ensures var b := a[i := a[i].(isFlagged := !a[i].isFlagged)];
            && |Flagged(b)| == |Flagged(a)| + (if a[i].isFlagged then -1 else 1)
            && |FlaggedMines(b)| == |FlaggedMines(a)| + (if !a[i].hasMine then 0 else if a[i].isFlagged then -1 else 1)
  {
    hide Flagged, FlaggedMines;
    FlaggedChange(a, i);
  }

  lemma FlaggedChange(a: seq<Cell>, i: int)
    requires 0 <= i < |a|
    ensures i in Flagged(a) <==> a[i].isFlagged
    ensures i in FlaggedMines(a) <==> a[i].isFlagged && a[i].hasMine
    ensures var b := a[i := a[i].(isFlagged := !a[i].isFlagged)];
      && Flagged(b) == (if a[i].isFlagged then Flagged(a) - {i} else Flagged(a) + {i})
      && FlaggedMines(b) ==
          if !a[i].hasMine then FlaggedMines(a)
          else if a[i].isFlagged then FlaggedMines(a) - {i} else FlaggedMines(a) + {i}
  {
  }

  ghost predicate SameButFlags(a: seq<Cell>, b: seq<Cell>) {
    |a| == |b| && forall k :: 0 <= k < |a| ==> b[k] == a[k].(isFlagged := b[k].isFlagged)
  }

  lemma FlagKeepsOpen(a: seq<Cell>, b: seq<Cell>)
    requires SameButFlags(a, b)
    ensures Mines(b) == Mines(a) && OpenSafe(b) == OpenSafe(a) && SafeCells(b) == SafeCells(a)
    ensures MineOpen(b) <==> MineOpen(a)
  {
    assert forall k :: 0 <= k < |a| ==> (b[k].isUncovered && b[k].hasMine <==> a[k].isUncovered && a[k].hasMine);
  }

  lemma FlagKeepsBoard(a: seq<Cell>, b: seq<Cell>, w: nat, h: nat)
    requires w > 0 && |a| == w * h && SameButFlags(a, b) && BoardOk(a, w, h)
    ensures BoardOk(b, w, h)
  {
    CountsIgnoreCovers(a, b, w, h);
    forall k | 0 <= k < |b| && b[k].isUncovered && !b[k].hasMine
      ensures Spread(b, w, h, k)
    {
      assert Spread(a, w, h, k);
      forall j | 0 <= j < |b| && Step(b, w, h, k, j) && !b[j].hasMine
        ensures b[j].isUncovered
      {
        assert Step(a, w, h, k, j);
      }
    }
  }

  // ----- a new board

  ghost predicate AllBlank(b: seq<Cell>) { forall k :: 0 <= k < |b| ==> Blank(b[k]) }

  /** Of blank cells nothing but the mines can be told apart, so exchanging mines is exchanging cells. */
  lemma SwapBlank(a: seq<Cell>, i: int, j: int)
    requires 0 <= i < |a| && 0 <= j < |a| && AllBlank(a)
    ensures Swapped(a, i, j) == a[i := a[j]][j := a[i]] && AllBlank(Swapped(a, i, j))
  {
  }

  /** A shuffle makes a permutation of the board. */
  lemma {:induction false} ShuffledKeeps(b: seq<Cell>, rnd: seq<nat>)
    requires |rnd| <= |b| && AllBlank(b)
    ensures AllBlank(Shuffled(b, rnd)) && multiset(Shuffled(b, rnd)) == multiset(b)
    ensures |Mines(Shuffled(b, rnd))| == |Mines(b)|
  {
    hide Mines, Swapped;
    if rnd != [] {
      var i := |rnd| - 1;
      ShuffledKeeps(b, rnd[..i]);
      SwapBlank(Shuffled(b, rnd[..i]), i, Pick(rnd[i], i, |b|));
    }
    MinesAreCells(b);
    MinesAreCells(Shuffled(b, rnd));
  }

  /** In a blank board the mines are as many as the cells that are mines. */
  lemma {:induction false} MinesAreCells(b: seq<Cell>)
    requires AllBlank(b)
    ensures multiset(b)[Cell(false, true, false, 0)] == |Mines(b)|
    ensures multiset(b)[Cell(false, false, false, 0)] == |b| - |Mines(b)|
    ensures forall c :: c in multiset(b) ==> c == Cell(false, true, false, 0) || c == Cell(false, false, false, 0)
  {
    if b != [] {
      var n := |b| - 1;
      MinesAreCells(b[..n]);
      assert b == b[..n] + [b[n]];
      assert Mines(b) == Mines(b[..n]) + (if b[n].hasMine then {n} else {});
    }
  }

  /** And every board with that many mines is made by some random numbers. */
  lemma {:induction false} EveryBoardIsMade(b: seq<Cell>, t: seq<Cell>) returns (rnd: seq<nat>)
    requires AllBlank(b) && AllBlank(t) && |b| == |t| && |Mines(b)| == |Mines(t)|
    ensures |rnd| == |b| && Shuffled(b, rnd) == t
  {
    hide Mines, Shuffled, Swapped;
    rnd := [];
    ShuffledNone(b);
    while |rnd| < |b|
      invariant |rnd| <= |b| && forall k :: 0 <= k < |rnd| ==> Shuffled(b, rnd)[k] == t[k]
      decreases |b| - |rnd|
    {
      var i, a := |rnd|, Shuffled(b, rnd);
      ShuffledKeeps(b, rnd);
      var j := CellLeft(a, t, i);
      assert Pick(j - i, i, |b|) == j;
      ShuffledMore(b, rnd, j - i);
      SwapBlank(a, i, j);
      rnd := rnd + [j - i];
    }
  }

  /** Among the cells that are left is one for place i. */
  lemma CellLeft(a: seq<Cell>, t: seq<Cell>, i: nat) returns (j: nat)
    requires i < |a| == |t| && |Mines(a)| == |Mines(t)| && forall k :: 0 <= k < i ==> a[k] == t[k]
    ensures i <= j < |a| && a[j].hasMine == t[i].hasMine
  {
    if j0 :| i <= j0 < |a| && a[j0].hasMine == t[i].hasMine {
      j := j0;
    } else if t[i].hasMine {
      assert i in Mines(t) && i !in Mines(a) && Mines(a) <= Mines(t);
      CardStrict(Mines(a), Mines(t), i);
      assert false;
    } else {
      assert i in Mines(a) && i !in Mines(t) && Mines(t) <= Mines(a);
      CardStrict(Mines(t), Mines(a), i);
      assert false;
    }
  }

  lemma CardStrict(s: set<int>, t: set<int>, x: int)
    requires s <= t && x in t && x !in s
    ensures |s| < |t|
  {
    CardMono(s, t - {x});
  }

  lemma ShuffledNone(b: seq<Cell>)
    ensures Shuffled(b, []) == b
  {
  }

  lemma ShuffledMore(b: seq<Cell>, rnd: seq<nat>, x: nat)
    requires |rnd| < |b|
    ensures Shuffled(b, rnd + [x]) == Swapped(Shuffled(b, rnd), |rnd|, Pick(x, |rnd|, |b|))
  {
    assert (rnd + [x])[..|rnd|] == rnd;
  }

  lemma LaidMines(a: seq<Cell>, m: nat)
    requires m <= |a| && forall k :: 0 <= k < |a| ==> (a[k].hasMine <==> k < m)
    ensures |Mines(a)| == m
  {
    assert Mines(a) == Indices(m);
  }

  lemma AroundIgnoresCounts(a: seq<Cell>, b: seq<Cell>, w: nat, h: nat, i: int)
    requires w > 0 && |a| == w * h == |b| && forall k :: 0 <= k < |a| ==> b[k].hasMine == a[k].hasMine
    ensures MinesAround(a, w, h, i) == MinesAround(b, w, h, i)
  {
  }

  lemma SeenIgnoresCounts(a: seq<Cell>, b: seq<Cell>, w: nat, h: nat, i: int, n: nat)
    requires w > 0 && |a| == w * h == |b| && n <= |OFFSETS| && forall k :: 0 <= k < |a| ==> b[k].hasMine == a[k].hasMine
    ensures MinesSeen(a, w, h, i, n) == MinesSeen(b, w, h, i, n)
  {
    AroundIgnoresCounts(a, b, w, h, i);
  }

  lemma FreshBoardOk(a: seq<Cell>, b: seq<Cell>, w: nat, h: nat)
    requires w > 0 && |a| == w * h == |b| && |Mines(a)| < |a|
    requires forall k :: 0 <= k < |a| ==> Blank(a[k]) && b[k] == a[k].(nOfMines := |MinesAround(a, w, h, k)|)
    ensures BoardOk(b, w, h) && Mines(b) == Mines(a) && !MineOpen(b)
    ensures OpenSafe(b) == {} && OpenSafe(b) != SafeCells(b) && Flagged(b) == {} && FlaggedMines(b) == {}
  {
    forall i | 0 <= i < |b| ensures b[i].nOfMines == |MinesAround(b, w, h, i)| {
      AroundIgnoresCounts(a, b, w, h, i);
    }
    MinesTotal(b);
  }

  /** The flood that starts by opening j: j itself and what the recursive call did. */
  lemma FloodFromOpened(a: seq<Cell>, a': seq<Cell>, b: seq<Cell>, w: nat, h: nat, src: int, j: int)
    requires w > 0 && |a| == w * h && 0 <= j < |a| && !a[j].isUncovered && !a[j].hasMine
    requires a' == a[j := a[j].(isUncovered := true)] && ZeroReach(a, w, h, src, j)
    requires Flooded(a', b, w, h, src) && (a[j].nOfMines == 0 ==> Spread(b, w, h, j))
    ensures Flooded(a, b, w, h, src)
  {
    assert Grows(a, a');
    forall k | 0 <= k < |a| && b[k].isUncovered && !a[k].isUncovered
      ensures !a[k].hasMine && ZeroReach(a, w, h, src, k) && Spread(b, w, h, k)
    {
      ReachIgnoresCovers(a, a', w, h, src, k);
    }
  }

  lemma GuardIs(w: nat, n: nat, i: int, dr: int, dc: int)
    requires w > 0
    ensures var j := i + dr * w + dc;
            Guard(w, n, i, dr, dc) <==> 0 <= j < n && (dc == 1 ==> j % w != 0) && (dc == -1 ==> j % w != w - 1)
  {
  }

  lemma TriedIs(b: seq<Cell>, w: nat, i: int, dr: int, dc: int)
    requires w > 0 && 0 <= i < |b|
    ensures !Guard(w, |b|, i, dr, dc) || b[i].nOfMines != 0 ==> Tried(b, w, i, (dr, dc))
    ensures var j := i + dr * w + dc;
            0 <= j < |b| && (b[j].hasMine || b[j].isUncovered) ==> Tried(b, w, i, (dr, dc))
  {
  }

  /** A zero-count cell that is reached reaches its neighbours. */
  lemma ReachNeighbour(b: seq<Cell>, w: nat, h: nat, src: int, i: int, dr: int, dc: int)
    requires w > 0 && |b| == w * h && 0 <= i < |b| && IsOffset((dr, dc))
    requires ZeroReach(b, w, h, src, i) && b[i].nOfMines == 0 && Guard(w, w * h, i, dr, dc)
    ensures ZeroReach(b, w, h, src, i + dr * w + dc)
  {
    hide Guard, ZeroReach;
    GuardIsAdjacent(w, h, i, dr, dc);
    ReachStep(b, w, h, src, i, i + dr * w + dc);
  }

  /** The first n neighbours are done, one more is tried: what the flood has done so far. */
  lemma Continue(a: seq<Cell>, b: seq<Cell>, c: seq<Cell>, w: nat, h: nat, src: int, i: int, n: nat)
    requires w > 0 && |a| == w * h && 0 <= i < |a| && n < |OFFSETS|
    requires Flooded(a, b, w, h, src) && Flooded(b, c, w, h, src) && ZeroReach(a, w, h, src, i)
    requires (forall m :: 0 <= m < n ==> Tried(b, w, i, OFFSETS[m])) && Tried(c, w, i, OFFSETS[n])
    ensures Flooded(a, c, w, h, src) && ZeroReach(c, w, h, src, i) && |Covered(c)| <= |Covered(a)|
    ensures forall m :: 0 <= m <= n ==> Tried(c, w, i, OFFSETS[m])
  {
    FloodedTransitive(a, b, c, w, h, src);
    ReachIgnoresCovers(a, c, w, h, src, i);
    GrowsCoveredSmaller(a, c);
    forall m | 0 <= m < n ensures Tried(c, w, i, OFFSETS[m]) { assert Tried(b, w, i, OFFSETS[m]); }
  }

  lemma AllOffsetsSpread(b: seq<Cell>, w: nat, h: nat, i: int)
    requires w > 0 && |b| == w * h && 0 <= i < |b|
    requires forall m :: 0 <= m < |OFFSETS| ==> Tried(b, w, i, OFFSETS[m])
    ensures Spread(b, w, h, i)
  {
    forall j | 0 <= j < |b| && Step(b, w, h, i, j) && !b[j].hasMine
      ensures b[j].isUncovered
    {
      AdjacentIsGuarded(w, h, i, j);
      OffsetsComplete((j / w - i / w, j % w - i % w));
      var m :| 0 <= m < |OFFSETS| && OFFSETS[m] == (j / w - i / w, j % w - i % w);
      assert Tried(b, w, i, OFFSETS[m]);
    }
  }

  // ----- one click

  lemma ClickGrows(a: seq<Cell>, b: seq<Cell>, w: nat, h: nat, i: int)
    requires w > 0 && |a| == w * h && 0 <= i < |a| && Clicked(a, b, w, h, i)
    ensures Mines(b) == Mines(a) && Flagged(b) == Flagged(a) && FlaggedMines(b) == FlaggedMines(a)
    ensures SafeCells(b) == SafeCells(a) && OpenSafe(a) <= OpenSafe(b) <= SafeCells(b)
  {
  }

  lemma MineClick(a: seq<Cell>, b: seq<Cell>, w: nat, h: nat, i: int)
    requires w > 0 && |a| == w * h && 0 <= i < |a| && a[i].hasMine && b == a[i := a[i].(isUncovered := true)]
    requires BoardOk(a, w, h)
    ensures BoardOk(b, w, h) && Clicked(a, b, w, h, i) && MineOpen(b)
  {
    CountsIgnoreCovers(a, b, w, h);
    assert Grows(a, b);
    forall k | 0 <= k < |b| && b[k].isUncovered && !b[k].hasMine
      ensures Spread(b, w, h, k)
    {
      SpreadGrows(a, b, w, h, k);
    }
    assert b[i].isUncovered && b[i].hasMine;
  }

  lemma SafeClick(a: seq<Cell>, a': seq<Cell>, b: seq<Cell>, w: nat, h: nat, i: int)
    requires w > 0 && |a| == w * h && 0 <= i < |a| && !a[i].hasMine && a' == a[i := a[i].(isUncovered := true)]
    requires BoardOk(a, w, h) && Flooded(a', b, w, h, i) && Spread(b, w, h, i)
    ensures BoardOk(b, w, h) && Clicked(a, b, w, h, i) && (MineOpen(b) <==> MineOpen(a))
  {
    assert Grows(a, a') && Grows(a, b);
    FloodIsExact(a, a', b, w, h, i);
    CountsIgnoreCovers(a, b, w, h);
    if MineOpen(b) {
      var k :| 0 <= k < |b| && b[k].isUncovered && b[k].hasMine;
      assert a[k].isUncovered && a[k].hasMine;
    }
  }
}
