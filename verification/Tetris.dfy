/**
 The game state of guiapps/tetris.c: pieces that move and rotate without
 overlapping, rows that disappear, and the score that accounts for every cell.
 */
module Tetris {
  const COLS := 10
  const ROWS := 20
  const NUM_PIECES := 7

  datatype Coords = Coords(x: int, y: int)

  datatype Cell = Cell(color: nat, occupied: bool)

  const EMPTY := Cell(0, false)

  type Row = seq<Cell>

  /** The positions of the blocks of the seven pieces. */
  function Pieces(): seq<seq<Coords>> {
    [
      [Coords(-1, 0), Coords(0, 0), Coords(0, -1), Coords(1, -1)],
      [Coords(-1, 0), Coords(0, 0), Coords(1, 0), Coords(2, 0)],
      [Coords(0, 0), Coords(0, 1), Coords(1, 0), Coords(1, 1)],
      [Coords(0, 0), Coords(-1, 0), Coords(1, 0), Coords(0, -1)],
      [Coords(0, 0), Coords(0, -1), Coords(0, -2), Coords(1, 0)],
      [Coords(0, 0), Coords(0, -1), Coords(0, -2), Coords(-1, 0)],
      [Coords(1, 0), Coords(0, 0), Coords(0, -1), Coords(-1, -1)]
    ]
  }

  // ---- Rows ----

  /** The rows of a grid, the top one first. */
  function RowsOf(g: seq<Cell>): (rs: seq<Row>)
    requires |g| == COLS * ROWS
    ensures |rs| == ROWS
    ensures forall y :: 0 <= y < ROWS ==> rs[y] == g[y * COLS..y * COLS + COLS]
  {
    seq(ROWS, y requires 0 <= y < ROWS => g[y * COLS..y * COLS + COLS])
  }

  predicate Full(r: Row) { forall x :: 0 <= x < |r| ==> r[x].occupied }

  /** Between events no row is full. */
  predicate NoneFull(g: seq<Cell>)
    requires |g| == COLS * ROWS
  {
    forall y :: 0 <= y < ROWS ==> !Full(RowsOf(g)[y])
  }

  function EmptyRow(): (r: Row)
    ensures |r| == COLS && forall x :: 0 <= x < COLS ==> r[x] == EMPTY
  {
    seq(COLS, _ => EMPTY)
  }

  function EmptyRows(n: nat): (rs: seq<Row>)
    ensures |rs| == n && forall y :: 0 <= y < n ==> rs[y] == EmptyRow()
  {
    seq(n, _ => EmptyRow())
  }

  /** The rows that are not full, in order. */
  function Kept(rs: seq<Row>): (ks: seq<Row>)
    ensures |ks| <= |rs|
  {
    if rs == [] then [] else (if Full(rs[0]) then [] else [rs[0]]) + Kept(rs[1..])
  }

  /** The rows that stay, below empty ones. */
  function Settled(rs: seq<Row>): (ss: seq<Row>)
    ensures |ss| == |rs|
  {
    EmptyRows(|rs| - |Kept(rs)|) + Kept(rs)
  }

  /** While rows are being removed: the first m are still to be looked at. */
  ghost function Midway(rs: seq<Row>, m: nat): (ss: seq<Row>)
    requires m <= |rs|
    ensures |ss| == |rs|
  {
    EmptyRows(|rs| - m - |Kept(rs[m..])|) + rs[..m] + Kept(rs[m..])
  }

  lemma KeptMore(rs: seq<Row>, m: nat)
    requires 0 < m <= |rs|
    ensures Kept(rs[m - 1..]) == (if Full(rs[m - 1]) then [] else [rs[m - 1]]) + Kept(rs[m..])
  {
    assert rs[m - 1..][1..] == rs[m..];
  }

  /** A row that is not full is kept where it is. */
  lemma KeepRow(rs: seq<Row>, m: nat)
    requires 0 < m <= |rs| && !Full(rs[m - 1])
    ensures Midway(rs, m - 1) == Midway(rs, m)
  {
    KeptMore(rs, m);
  }

  /** Taking out a full row moves the rows above it down by one. */
  lemma DropRow(rs: seq<Row>, m: nat, y: nat, ss: seq<Row>)
    requires 0 < m <= |rs| && Full(rs[m - 1]) && |ss| == |rs|
    requires y == |rs| - |Kept(rs[m..])| - 1
    requires ss[0] == EmptyRow() && forall i :: 1 <= i <= y ==> ss[i] == Midway(rs, m)[i - 1]
    requires forall i :: y < i < |rs| ==> ss[i] == Midway(rs, m)[i]
    ensures Midway(rs, m - 1) == ss
  {
    KeptMore(rs, m);
    var e := |rs| - m - |Kept(rs[m..])|;
    var mid := Midway(rs, m - 1);
    forall i | 0 <= i < |rs| ensures mid[i] == ss[i] {
      if i == 0 {
      } else if i <= e {
        assert ss[i] == Midway(rs, m)[i - 1] == EmptyRow();
      } else if i <= y {
        assert ss[i] == Midway(rs, m)[i - 1] == rs[i - 1 - e];
      } else {
        assert ss[i] == Midway(rs, m)[i] == Kept(rs[m..])[i - e - m];
      }
    }
  }

  lemma MidwayRow(rs: seq<Row>, m: nat, y: nat)
    requires m <= |rs| && y < |rs| - |Kept(rs[m..])|
    ensures var gone := |rs| - m - |Kept(rs[m..])|;
      Midway(rs, m)[y] == if y < gone then EmptyRow() else rs[y - gone]
  {
  }

  lemma MidwayEnds(rs: seq<Row>)
    ensures Midway(rs, |rs|) == rs && Midway(rs, 0) == Settled(rs)
    ensures Kept(rs[|rs|..]) == [] && rs[0..] == rs
  {
  }

  lemma EmptyIsNotFull()
    ensures !Full(EmptyRow())
  {
    assert !EmptyRow()[0].occupied;
  }

  // ---- Counting cells ----

  function Count(s: seq<Cell>): nat {
    if s == [] then 0 else Count(s[..|s| - 1]) + (if s[|s| - 1].occupied then 1 else 0)
  }

  function CountRows(rs: seq<Row>): nat {
    if rs == [] then 0 else CountRows(rs[..|rs| - 1]) + Count(rs[|rs| - 1])
  }

  lemma {:induction false} CountAppend(s: seq<Cell>, t: seq<Cell>)
    ensures Count(s + t) == Count(s) + Count(t)
    decreases |t|
  {
    if t == [] {
      assert s + t == s;
    } else {
      assert (s + t)[..|s + t| - 1] == s + t[..|t| - 1];
      CountAppend(s, t[..|t| - 1]);
    }
  }

  lemma {:induction false} CountRowsAppend(s: seq<Row>, t: seq<Row>)
    ensures CountRows(s + t) == CountRows(s) + CountRows(t)
    decreases |t|
  {
    if t == [] {
      assert s + t == s;
    } else {
      assert (s + t)[..|s + t| - 1] == s + t[..|t| - 1];
      CountRowsAppend(s, t[..|t| - 1]);
    }
  }

  lemma {:induction false} CountOfRows(g: seq<Cell>, k: nat)
    requires |g| == COLS * ROWS && k <= ROWS
    ensures Count(g[..k * COLS]) == CountRows(RowsOf(g)[..k])
    decreases k
  {
    if k > 0 {
      CountOfRows(g, k - 1);
      assert g[..k * COLS] == g[..(k - 1) * COLS] + RowsOf(g)[k - 1];
      CountAppend(g[..(k - 1) * COLS], RowsOf(g)[k - 1]);
      assert RowsOf(g)[..k][..k - 1] == RowsOf(g)[..k - 1];
    }
  }

  lemma CountIsRows(g: seq<Cell>)
    requires |g| == COLS * ROWS
    ensures Count(g) == CountRows(RowsOf(g))
  {
    CountOfRows(g, ROWS);
    assert g[..ROWS * COLS] == g && RowsOf(g)[..ROWS] == RowsOf(g);
  }

  lemma {:induction false} CountFull(r: Row)
    requires Full(r)
    ensures Count(r) == |r|
    decreases |r|
  {
    if r != [] { CountFull(r[..|r| - 1]); }
  }

  lemma {:induction false} CountEmpty(s: seq<Cell>)
    requires forall i :: 0 <= i < |s| ==> !s[i].occupied
    ensures Count(s) == 0
    decreases |s|
  {
    if s != [] { CountEmpty(s[..|s| - 1]); }
  }

  lemma {:induction false} CountEmptyRows(n: nat)
    ensures CountRows(EmptyRows(n)) == 0
  {
    if n > 0 {
      assert EmptyRows(n)[..n - 1] == EmptyRows(n - 1);
      CountEmptyRows(n - 1);
      CountEmpty(EmptyRow());
    }
  }

  lemma {:induction false} CountKept(rs: seq<Row>)
    requires forall i :: 0 <= i < |rs| ==> |rs[i]| == COLS
    ensures CountRows(Kept(rs)) == CountRows(rs) - COLS * (|rs| - |Kept(rs)|)
    decreases |rs|
  {
    if rs != [] {
      CountKept(rs[1..]);
      var head := [rs[0]];
      assert rs == head + rs[1..];
      CountRowsAppend(head, rs[1..]);
      assert head[..0] == [];
      assert CountRows(head) == Count(rs[0]);
      if Full(rs[0]) {
        CountFull(rs[0]);
        assert Kept(rs) == Kept(rs[1..]);
      } else {
        CountRowsAppend(head, Kept(rs[1..]));
      }
    }
  }

  /** Every row removed takes ten cells with it. */
  lemma CountSettled(rs: seq<Row>)
    requires forall i :: 0 <= i < |rs| ==> |rs[i]| == COLS
    ensures CountRows(Settled(rs)) == CountRows(rs) - COLS * (|rs| - |Kept(rs)|)
  {
    CountKept(rs);
    CountEmptyRows(|rs| - |Kept(rs)|);
    CountRowsAppend(EmptyRows(|rs| - |Kept(rs)|), Kept(rs));
  }

  lemma {:induction false} CountSet(s: seq<Cell>, i: nat, c: Cell)
    requires i < |s| && c.occupied && !s[i].occupied
    ensures Count(s[i := c]) == Count(s) + 1
    decreases |s|
  {
    var t := s[i := c];
    if i < |s| - 1 {
      assert t[..|s| - 1] == s[..|s| - 1][i := c];
      CountSet(s[..|s| - 1], i, c);
    } else {
      assert t[..|s| - 1] == s[..|s| - 1];
    }
  }

  /** No row of the settled grid is full. */
  lemma {:induction false} KeptAreNotFull(rs: seq<Row>, i: nat)
    requires i < |Kept(rs)|
    ensures !Full(Kept(rs)[i])
    decreases |rs|
  {
    if Full(rs[0]) {
      KeptAreNotFull(rs[1..], i);
    } else if i > 0 {
      KeptAreNotFull(rs[1..], i - 1);
    }
  }

  // ---- Rotations ----

  /** pieceRot: the matrix ((a, b), (c, d)). */
  datatype Rot = Rot(a: int, b: int, c: int, d: int)

  function Turned(r: Rot): Rot { Rot(-r.c, -r.d, r.a, r.b) }

  function Det(r: Rot): int { r.a * r.d - r.b * r.c }

  lemma TurnKeepsDet(r: Rot)
    ensures Det(Turned(r)) == Det(r)
  {
    assert -r.c * r.b - (-r.d * r.a) == r.a * r.d - r.b * r.c;
  }

  function PosOf(b: Coords, r: Rot, px: int, py: int): Coords {
    Coords(b.x * r.a + b.y * r.b + px, b.x * r.c + b.y * r.d + py)
  }

  /** A matrix of determinant 1 keeps different blocks apart. */
  lemma BlocksApart(b: Coords, c: Coords, r: Rot, px: int, py: int)
    requires Det(r) == 1 && b != c
    ensures PosOf(b, r, px, py) != PosOf(c, r, px, py)
  {
    var dx, dy := b.x - c.x, b.y - c.y;
    var u, v := dx * r.a + dy * r.b, dx * r.c + dy * r.d;
    calc {
      r.d * u - r.b * v;
      r.d * (dx * r.a) + r.d * (dy * r.b) - r.b * (dx * r.c) - r.b * (dy * r.d);
      dx * (r.a * r.d - r.b * r.c);
      dx;
    }
    calc {
      r.a * v - r.c * u;
      r.a * (dx * r.c) + r.a * (dy * r.d) - r.c * (dx * r.a) - r.c * (dy * r.b);
      dy * (r.a * r.d - r.b * r.c);
      dy;
    }
    assert u == (b.x * r.a + b.y * r.b) - (c.x * r.a + c.y * r.b);
    assert v == (b.x * r.c + b.y * r.d) - (c.x * r.c + c.y * r.d);
  }

  /** A turn is a quarter turn about the middle of the piece: with y downwards, right goes down and down goes left. */
  lemma TurnIsQuarter(b: Coords, r: Rot, px: int, py: int)
    ensures var c, d := PosOf(b, r, px, py), PosOf(b, Turned(r), px, py);
      d.x - px == -(c.y - py) && d.y - py == c.x - px
  {
    assert b.x * -r.c + b.y * -r.d == -(b.x * r.c + b.y * r.d);
  }

  /** Before it is turned, a piece stands as it is drawn. */
  lemma UnturnedIsDrawn(b: Coords, px: int, py: int)
    ensures PosOf(b, Rot(1, 0, 0, 1), px, py) == Coords(b.x + px, b.y + py)
  {
  }

  /** Every piece hangs together: each block but one shares an edge with one that comes before it. */
  lemma PiecesHangTogether(k: nat, i: nat) returns (j: nat)
    requires k < NUM_PIECES && 0 < i < 4
    ensures j < i && |Pieces()[k]| == 4
    ensures var b, c := Pieces()[k][i], Pieces()[k][j];
      (b.x == c.x && (b.y == c.y + 1 || c.y == b.y + 1)) || (b.y == c.y && (b.x == c.x + 1 || c.x == b.x + 1))
  {
    j := if k == 3 || ((k == 4 || k == 5) && i == 3) then 0 else if k == 2 && i > 1 then i - 2 else i - 1;
    assert k == 0 || k == 1 || k == 2 || k == 3 || k == 4 || k == 5 || k == 6;
    assert i == 1 || i == 2 || i == 3;
  }

  lemma BlocksDiffer(k: nat, i: nat, j: nat)
    requires k < NUM_PIECES && i < j < 4
    ensures |Pieces()[k]| == 4 && Pieces()[k][i] != Pieces()[k][j]
  {
    assert i == 0 || i == 1 || i == 2;
  }

  function Blocks(k: nat): (bs: seq<Coords>)
    requires k < NUM_PIECES
    ensures |bs| == 4
  {
    Pieces()[k]
  }

  function Place(k: nat, r: Rot, px: int, py: int, i: nat): Coords
    requires k < NUM_PIECES && i < 4
  {
    PosOf(Blocks(k)[i], r, px, py)
  }

  lemma PlacesApart(k: nat, r: Rot, px: int, py: int, i: nat, j: nat)
    requires k < NUM_PIECES && i < j < 4 && Det(r) == 1
    ensures Place(k, r, px, py, i) != Place(k, r, px, py, j)
  {
    hide Det, Pieces, PosOf;
    BlocksDiffer(k, i, j);
    BlocksApart(Blocks(k)[i], Blocks(k)[j], r, px, py);
  }

  // ---- Occupied places ----

  predicate Inside(c: Coords) { 0 <= c.x < COLS && 0 <= c.y < ROWS }

  function IndexOf(c: Coords): (i: nat)
    requires Inside(c)
    ensures i < COLS * ROWS
  {
    c.y * COLS + c.x
  }

  lemma IndexIsOne(c: Coords, d: Coords)
    requires Inside(c) && Inside(d) && IndexOf(c) == IndexOf(d)
    ensures c == d
  {
  }

  /** isOccupied: everything outside the grid is. */
  predicate Occupied(g: seq<Cell>, c: Coords)
    requires |g| == COLS * ROWS
  {
    !Inside(c) || g[IndexOf(c)].occupied
  }

  ghost predicate AllInside(k: nat, r: Rot, px: int, py: int)
    requires k < NUM_PIECES
  {
    forall i :: 0 <= i < 4 ==> Inside(Place(k, r, px, py, i))
  }

  /** The piece could be there. */
  ghost predicate Fits(g: seq<Cell>, k: nat, r: Rot, px: int, py: int)
    requires |g| == COLS * ROWS && k < NUM_PIECES
  {
    forall i :: 0 <= i < 4 ==> !Occupied(g, Place(k, r, px, py, i))
  }

  /** The grid with the first n blocks of a piece settled in it. */
  ghost function Locked(g: seq<Cell>, k: nat, r: Rot, px: int, py: int, n: nat): (h: seq<Cell>)
    requires |g| == COLS * ROWS && k < NUM_PIECES && n <= 4 && Fits(g, k, r, px, py)
    ensures |h| == |g|
  {
    if n == 0 then g
    else
      var c := Place(k, r, px, py, n - 1);
      Locked(g, k, r, px, py, n - 1)[IndexOf(c) := Cell(k + 1, true)]
  }

  lemma {:induction false} LockedElsewhere(g: seq<Cell>, k: nat, r: Rot, px: int, py: int, n: nat, c: Coords)
    requires |g| == COLS * ROWS && k < NUM_PIECES && n <= 4 && Fits(g, k, r, px, py) && Inside(c)
    requires forall i :: 0 <= i < n ==> Place(k, r, px, py, i) != c
    ensures Locked(g, k, r, px, py, n)[IndexOf(c)] == g[IndexOf(c)]
  {
    hide Place;
    if n > 0 {
      LockedElsewhere(g, k, r, px, py, n - 1, c);
      if IndexOf(Place(k, r, px, py, n - 1)) == IndexOf(c) { IndexIsOne(Place(k, r, px, py, n - 1), c); }
    }
  }

  /** A settled piece: its four places have its colour, and all other cells are as they were. */
  lemma {:induction false} LockedIsExact(g: seq<Cell>, k: nat, r: Rot, px: int, py: int, c: Coords)
    requires |g| == COLS * ROWS && k < NUM_PIECES && Fits(g, k, r, px, py) && Det(r) == 1
    requires 0 <= c.x < COLS && 0 <= c.y < ROWS
    ensures Locked(g, k, r, px, py, 4)[c.y * COLS + c.x] ==
      if exists i :: 0 <= i < 4 && Place(k, r, px, py, i) == c then Cell(k + 1, true) else g[c.y * COLS + c.x]
  {
    hide Place, Det, Locked;
    if i :| 0 <= i < 4 && Place(k, r, px, py, i) == c {
      LockedAt(g, k, r, px, py, 4, i);
    } else {
      LockedElsewhere(g, k, r, px, py, 4, c);
    }
  }

  lemma {:induction false} LockedAt(g: seq<Cell>, k: nat, r: Rot, px: int, py: int, n: nat, i: nat)
    requires |g| == COLS * ROWS && k < NUM_PIECES && i < n <= 4 && Fits(g, k, r, px, py) && Det(r) == 1
    ensures var c := Place(k, r, px, py, i);
      Inside(c) && Locked(g, k, r, px, py, n)[c.y * COLS + c.x] == Cell(k + 1, true)
  {
    hide Place, Det;
    var c, d := Place(k, r, px, py, i), Place(k, r, px, py, n - 1);
    assert !Occupied(g, c) && !Occupied(g, d);
    if i < n - 1 {
      LockedAt(g, k, r, px, py, n - 1, i);
      PlacesApart(k, r, px, py, i, n - 1);
      if IndexOf(c) == IndexOf(d) { IndexIsOne(c, d); }
    }
  }

  /** Settling a piece that fits adds a cell for every block. */
  lemma {:induction false} CountLocked(g: seq<Cell>, k: nat, r: Rot, px: int, py: int, n: nat)
    requires |g| == COLS * ROWS && k < NUM_PIECES && n <= 4 && Fits(g, k, r, px, py) && Det(r) == 1
    ensures Count(Locked(g, k, r, px, py, n)) == Count(g) + n
  {
    hide Place, Det, Count, IndexOf;
    if n > 0 {
      CountLocked(g, k, r, px, py, n - 1);
      var c := Place(k, r, px, py, n - 1);
      forall i | 0 <= i < n - 1 ensures Place(k, r, px, py, i) != c { PlacesApart(k, r, px, py, i, n - 1); }
      LockedElsewhere(g, k, r, px, py, n - 1, c);
      assert !Occupied(g, c);
      CountSet(Locked(g, k, r, px, py, n - 1), IndexOf(c), Cell(k + 1, true));
    }
  }

  // ---- The program ----

  /** The rows once those from y up to just above my have been overwritten by the ones above them. */
  ghost function Shifted(was: seq<Row>, my: int, y: nat): (rs: seq<Row>)
    requires |was| == ROWS && -1 <= my <= y < ROWS
    ensures |rs| == ROWS
    ensures forall i :: 0 <= i < ROWS ==>
      rs[i] == if my < i <= y then (if i == 0 then EmptyRow() else was[i - 1]) else was[i]
  {
    seq(ROWS, i requires 0 <= i < ROWS =>
      if my < i <= y then (if i == 0 then EmptyRow() else was[i - 1]) else was[i])
  }

  /** rand() % n */
  function RandomBelow(r: nat, n: nat): (k: nat)
    requires n > 0
    ensures k < n
  {
    r % n
  }

  /** Smallest coordinates, and the largest horizontal one, of four blocks. */
  ghost predicate InBox(bs: seq<Coords>, lowestX: int, highestX: int, lowestY: int) {
    && (forall b :: b in bs ==> lowestX <= b.x <= highestX && lowestY <= b.y)
    && (exists b :: b in bs && b.x == lowestX) && (exists b :: b in bs && b.x == highestX)
    && (exists b :: b in bs && b.y == lowestY)
  }

  /** A new piece stands at the top, its leftmost block in a column drawn from so many. */
  predicate SpawnsAt(lowestX: int, highestX: int, lowestY: int, r: nat, px: int, py: int) {
    var width := COLS - (highestX - lowestX) + lowestX;
    width > 0 && px + lowestX == r % width && py + lowestY == 0
  }

  /**
   The columns are too few for a piece that is drawn to the left of its middle: some new
   piece touches the right edge exactly if the piece is not.
   */
  lemma {:induction false} RightEdgeIsMissed(k: nat, lowestX: int, highestX: int, lowestY: int)
    requires k < NUM_PIECES && InBox(Blocks(k), lowestX, highestX, lowestY)
    ensures lowestX <= 0 <= highestX && COLS - (highestX - lowestX) + lowestX > 0
    ensures (exists r: nat :: LastColumn(lowestX, highestX, r) == COLS - 1) <==> lowestX == 0
  {
    hide Pieces, Blocks, InBox, LastColumn;
    BoxIsSmall(k, lowestX, highestX, lowestY);
    var width := COLS - (highestX - lowestX) + lowestX;
    forall r: nat ensures LastColumn(lowestX, highestX, r) <= COLS - 1 + lowestX {
      LastColumnIs(lowestX, highestX, r);
    }
    LastColumnIs(lowestX, highestX, width - 1);
  }

  lemma LastColumnIs(lowestX: int, highestX: int, r: nat)
    requires COLS - (highestX - lowestX) + lowestX > 0
    ensures LastColumn(lowestX, highestX, r) <= COLS - 1 + lowestX
    ensures r == COLS - (highestX - lowestX) + lowestX - 1 ==> LastColumn(lowestX, highestX, r) == COLS - 1 + lowestX
  {
    ModBelow(r, COLS - (highestX - lowestX) + lowestX);
  }

  lemma ModBelow(r: nat, n: nat)
    requires n > 0
    ensures r % n < n && (r < n ==> r % n == r)
  {
  }

  /** The column of the rightmost block of a new piece. */
  function LastColumn(lowestX: int, highestX: int, r: nat): int
    requires COLS - (highestX - lowestX) + lowestX > 0
  {
    r % (COLS - (highestX - lowestX) + lowestX) + (highestX - lowestX)
  }

  class Game {
    const grid: array<Cell>
    var piece: nat
    var pieceX: int
    var pieceY: int
    var pieceRot: Rot
    var score: nat
    var gameOver: bool
    ghost var locked: nat

    ghost predicate Valid()
      reads this, grid
    {
      && grid.Length == COLS * ROWS && piece < NUM_PIECES && Det(pieceRot) == 1
      && (!gameOver ==> Fits(grid[..], piece, pieceRot, pieceX, pieceY))
      && Conserved() && NoneFull(grid[..])
    }

    /** Every cell that was ever settled is still there or has been scored. */
    ghost predicate Conserved()
      requires grid.Length == COLS * ROWS
      reads this, grid
    {
      Count(grid[..]) + COLS * score == 4 * locked
    }

    /** getPiecePos. */
    method GetPiecePos() returns (positions: array<Coords>)
      requires piece < NUM_PIECES
      ensures fresh(positions) && positions.Length == 4
      ensures forall i :: 0 <= i < 4 ==> positions[i] == Place(piece, pieceRot, pieceX, pieceY, i)
    {
      positions := new Coords[4](_ => Coords(0, 0));
      for i := 0 to 4
        invariant forall j :: 0 <= j < i ==> positions[j] == Place(piece, pieceRot, pieceX, pieceY, j)
      {
        var b := Blocks(piece)[i];
        positions[i] := Coords(b.x * pieceRot.a + b.y * pieceRot.b + pieceX,
                               b.x * pieceRot.c + b.y * pieceRot.d + pieceY);
      }
    }

    /** The loop that asks whether the piece, moved by (dx, dy), would meet anything. */
    method IsBlocked(dx: int, dy: int) returns (occupied: bool)
      requires grid.Length == COLS * ROWS && piece < NUM_PIECES
      ensures !occupied <==> Fits(grid[..], piece, pieceRot, pieceX + dx, pieceY + dy)
    {
      hide Blocks;
      var positions := GetPiecePos();
      occupied := false;
      ghost var px, py := pieceX + dx, pieceY + dy;
      for i := 0 to 4
        invariant forall j :: 0 <= j < i ==> !Occupied(grid[..], Place(piece, pieceRot, px, py, j))
      {
        var c := Coords(positions[i].x + dx, positions[i].y + dy);
        assert c == Place(piece, pieceRot, px, py, i);
        if Occupied(grid[..], c) { return true; }
      }
    }

    /** movePiece. */
    method MovePiece(dx: int)
      requires Valid()
      modifies `pieceX
      ensures Valid()
      ensures pieceX ==
        if Fits(grid[..], piece, pieceRot, old(pieceX) + dx, pieceY) then old(pieceX) + dx else old(pieceX)
    {
      hide Fits, Count, Det;
      var occupied := IsBlocked(dx, 0);
      if !occupied { pieceX := pieceX + dx; }
    }

    /** rotate: a quarter turn, taken back if the piece does not fit. */
    method Rotate()
      requires Valid()
      modifies `pieceRot
      ensures Valid()
      ensures pieceRot ==
        if Fits(grid[..], piece, Turned(old(pieceRot)), pieceX, pieceY) then Turned(old(pieceRot)) else old(pieceRot)
    {
      hide Fits, Count, Det;
      var oldRot := pieceRot;
      TurnKeepsDet(oldRot);
      pieceRot := Rot(-oldRot.c, -oldRot.d, oldRot.a, oldRot.b);
      var occupied := IsBlocked(0, 0);
      if occupied { pieceRot := oldRot; }
    }

    /** One row is overwritten. */
    method SetRow(y: nat, row: Row)
      requires grid.Length == COLS * ROWS && y < ROWS && |row| == COLS
      modifies grid
      ensures RowsOf(grid[..]) == RowsOf(old(grid[..]))[y := row]
    {
      var at := y * COLS;
      for x := 0 to COLS
        invariant grid[at..at + x] == row[..x]
        invariant forall i :: 0 <= i < at || at + COLS <= i < COLS * ROWS ==> grid[i] == old(grid[i])
      {
        grid[at + x] := row[x];
        assert grid[at..at + x + 1] == grid[at..at + x] + [row[x]];
      }
      RowReplaced(old(grid[..]), grid[..], y, row);
    }

    /** The inner loop of checkRows: the rows above row y move down by one. */
    method ShiftDown(y: nat)
      requires grid.Length == COLS * ROWS && y < ROWS
      modifies grid
      ensures RowsOf(grid[..])[0] == EmptyRow()
      ensures forall i :: 1 <= i <= y ==> RowsOf(grid[..])[i] == RowsOf(old(grid[..]))[i - 1]
      ensures forall i :: y < i < ROWS ==> RowsOf(grid[..])[i] == RowsOf(old(grid[..]))[i]
    {
      ghost var was := RowsOf(grid[..]);
      hide RowsOf;
      var my: int := y;
      while my >= 0
        invariant -1 <= my <= y
        invariant RowsOf(grid[..]) == Shifted(was, my, y)
        decreases my
      {
        if my == 0 {
          SetRow(my, EmptyRow());
        } else {
          SetRow(my, RowsOf(grid[..])[my - 1]);
        }
        my := my - 1;
      }
    }

    /** checkRows: full rows disappear, what is above them moves down, and each scores a point. */
    method CheckRows()
      requires grid.Length == COLS * ROWS
      modifies grid, `score
      ensures RowsOf(grid[..]) == Settled(RowsOf(old(grid[..])))
      ensures score == old(score) + (ROWS - |Kept(RowsOf(old(grid[..])))|)
    {
      hide Full, Midway, Settled, Kept, RowsOf;
      ghost var rs := RowsOf(grid[..]);
      ghost var m: nat := ROWS;
      MidwayEnds(rs);
      var y := ROWS - 1;
      while y >= 0
        invariant -1 <= y < ROWS && m <= ROWS
        invariant RowsOf(grid[..]) == Midway(rs, m)
        invariant score == old(score) + (ROWS - m - |Kept(rs[m..])|)
        invariant m == 0 || y == ROWS - |Kept(rs[m..])| - 1
        invariant m == 0 ==> y < ROWS - |Kept(rs[0..])|
        decreases y + m
      {
        var full := true;
        var row := RowsOf(grid[..])[y];
        FullNone(row);
        for x := 0 to COLS
          invariant full <==> Full(row[..x])
          invariant RowsOf(grid[..]) == Midway(rs, m) && score == old(score) + (ROWS - m - |Kept(rs[m..])|)
        {
          FullMore(row, x);
          if !row[x].occupied { full := false; }
        }
        assert row[..COLS] == row;
        MidwayRow(rs, m, y);
        EmptyIsNotFull();
        if full {
          ShiftDown(y);
          KeptMore(rs, m);
          DropRow(rs, m, y, RowsOf(grid[..]));
          m := m - 1;
          y := y + 1;
          score := score + 1;
        } else if m > 0 {
          KeptMore(rs, m);
          KeepRow(rs, m);
          m := m - 1;
        }
        y := y - 1;
      }
    }

    /**
     nextPiece: a piece in its first position at the top, in a random column. The
     game is over exactly if it does not fit there.
     */
    method NextPiece(r1: nat, r2: nat)
      requires grid.Length == COLS * ROWS && Conserved() && NoneFull(grid[..])
      requires !gameOver
      modifies `piece, `pieceX, `pieceY, `pieceRot, `gameOver
      ensures pieceRot == Rot(1, 0, 0, 1) && piece == r1 % NUM_PIECES
      ensures exists lx, hx, ly :: InBox(Blocks(piece), lx, hx, ly) && SpawnsAt(lx, hx, ly, r2, pieceX, pieceY)
      ensures gameOver <==> !Fits(grid[..], piece, pieceRot, pieceX, pieceY)
      ensures Valid() && AllInside(piece, pieceRot, pieceX, pieceY)
    {
      hide Pieces, Blocks, Place, Det, Count, Fits, InBox, Inside;
      piece := RandomBelow(r1, NUM_PIECES);
      pieceRot := Rot(1, 0, 0, 1);
      var lowestX, highestX, lowestY := Extremes(Blocks(piece));
      BoxIsSmall(piece, lowestX, highestX, lowestY);
      pieceY := -lowestY;
      var baseX := -lowestX;
      var width := COLS - (highestX - lowestX) - baseX;
      var column := RandomBelow(r2, width);
      pieceX := baseX + column;
      SpawnInside(piece, pieceX, pieceY, lowestX, highestX, lowestY, column);
      assert SpawnsAt(lowestX, highestX, lowestY, r2, pieceX, pieceY);
      var occupied := IsBlocked(0, 0);
      if occupied {
        gameOver := true;
      }
      NewPiece();
    }

    lemma NewPiece()
      requires grid.Length == COLS * ROWS && piece < NUM_PIECES && pieceRot == Rot(1, 0, 0, 1) && Conserved()
      requires NoneFull(grid[..])
      requires !gameOver ==> Fits(grid[..], piece, pieceRot, pieceX, pieceY)
      ensures Valid()
    {
    }

    /** The lock step of tetrisHandler: the piece settles where it is. */
    method Lock()
      requires Valid() && !gameOver
      modifies grid, `locked
      ensures grid[..] == Locked(old(grid[..]), piece, pieceRot, pieceX, pieceY, 4)
      ensures locked == old(locked) + 1 && Conserved()
    {
      hide Count, Det, Blocks, Fits, Place, Locked;
      ghost var g := grid[..];
      LockedNone(g, piece, pieceRot, pieceX, pieceY);
      var positions := GetPiecePos();
      for i := 0 to 4
        invariant grid[..] == Locked(g, piece, pieceRot, pieceX, pieceY, i) && locked == old(locked)
        invariant forall j :: 0 <= j < 4 ==> positions[j] == Place(piece, pieceRot, pieceX, pieceY, j)
      {
        LockedMore(g, piece, pieceRot, pieceX, pieceY, i);
        grid[positions[i].y * COLS + positions[i].x] := Cell(piece + 1, true);
      }
      CountLocked(g, piece, pieceRot, pieceX, pieceY, 4);
      locked := locked + 1;
    }

    /** The timer branch of tetrisHandler. */
    method Update(r1: nat, r2: nat)
      requires Valid()
      modifies this, grid
      ensures Valid()
      ensures old(gameOver) ==> gameOver && grid[..] == old(grid[..]) && score == old(score) && locked == old(locked)
      ensures !old(gameOver) && Fits(old(grid[..]), old(piece), old(pieceRot), old(pieceX), old(pieceY) + 1) ==>
        grid[..] == old(grid[..]) && pieceY == old(pieceY) + 1 && pieceX == old(pieceX) && locked == old(locked)
      ensures !old(gameOver) && !Fits(old(grid[..]), old(piece), old(pieceRot), old(pieceX), old(pieceY) + 1) ==>
        && Fits(old(grid[..]), old(piece), old(pieceRot), old(pieceX), old(pieceY))
        && locked == old(locked) + 1
        && RowsOf(grid[..]) == Settled(RowsOf(
             Locked(old(grid[..]), old(piece), old(pieceRot), old(pieceX), old(pieceY), 4)))
    {
      hide Count, Det, Fits, Place, Locked, RowsOf, Settled, Kept, Occupied, Inside, NoneFull;
      if !gameOver {
        var occupied := IsBlocked(0, 1);
        if !occupied {
          pieceY := pieceY + 1;
        } else {
          Lock();
          ghost var g := grid[..];
          CheckRows();
          StillConserved(g, grid[..], score);
          NoneFullSettled(g, grid[..]);
          NextPiece(r1, r2);
        }
      }
    }

    /** resetGame: an empty grid, in which the first piece always fits. */
    method ResetGame(r1: nat, r2: nat)
      requires grid.Length == COLS * ROWS
      modifies this, grid
      ensures Valid() && !gameOver && score == 0 && locked == 0
      ensures forall i :: 0 <= i < COLS * ROWS ==> grid[i] == EMPTY
    {
      hide Det, Pieces, Blocks, Place, Inside, RowsOf;
      gameOver := false;
      score := 0;
      for i := 0 to ROWS * COLS
        invariant !gameOver && score == 0
        invariant forall j :: 0 <= j < i ==> grid[j] == EMPTY
      {
        grid[i] := EMPTY;
      }
      locked := 0;
      CountEmpty(grid[..]);
      NoneFullEmpty(grid[..]);
      hide Count, Fits, NoneFull;
      NextPiece(r1, r2);
    }

    constructor (r1: nat, r2: nat)
      ensures Valid() && fresh(grid) && !gameOver && score == 0
    {
      grid := new Cell[COLS * ROWS](_ => EMPTY);
      piece, pieceX, pieceY, pieceRot, score, gameOver, locked := 0, 0, 0, Rot(1, 0, 0, 1), 0, false, 0;
      new;
      ResetGame(r1, r2);
    }
  }

  /** The two loops of nextPiece over the blocks of a piece. */
  method Extremes(bs: seq<Coords>) returns (lowestX: int, highestX: int, lowestY: int)
    requires |bs| == 4
    ensures InBox(bs, lowestX, highestX, lowestY)
  {
    lowestY := bs[0].y;
    ghost var low := bs[0];
    for i := 0 to 4
      invariant forall j :: 0 <= j < i ==> lowestY <= bs[j].y
      invariant low in bs && low.y == lowestY
    {
      if bs[i].y < lowestY {
        lowestY := bs[i].y;
        low := bs[i];
      }
    }
    lowestX, highestX := bs[0].x, bs[0].x;
    ghost var left, right := bs[0], bs[0];
    for i := 0 to 4
      invariant forall j :: 0 <= j < i ==> lowestX <= bs[j].x <= highestX
      invariant left in bs && left.x == lowestX && right in bs && right.x == highestX
    {
      if bs[i].x < lowestX {
        lowestX := bs[i].x;
        left := bs[i];
      }
      if bs[i].x > highestX {
        highestX := bs[i].x;
        right := bs[i];
      }
    }
  }

  lemma OriginBlock(k: nat)
    requires k < NUM_PIECES
    ensures Coords(0, 0) in Blocks(k)
    ensures forall b :: b in Blocks(k) ==> -1 <= b.x <= 2 && -2 <= b.y <= 1
  {
    var bs := Blocks(k);
    assert bs[0] == Coords(0, 0) || bs[1] == Coords(0, 0);
    assert -1 <= bs[0].x <= 2 && -1 <= bs[1].x <= 2 && -1 <= bs[2].x <= 2 && -1 <= bs[3].x <= 2;
    assert -2 <= bs[0].y <= 1 && -2 <= bs[1].y <= 1 && -2 <= bs[2].y <= 1 && -2 <= bs[3].y <= 1;
  }

  lemma BoxIsSmall(k: nat, lowestX: int, highestX: int, lowestY: int)
    requires k < NUM_PIECES
    requires InBox(Blocks(k), lowestX, highestX, lowestY)
    ensures -1 <= lowestX <= 0 && 0 <= highestX <= 2 && -2 <= lowestY <= 0
    ensures forall j :: 0 <= j < 4 ==>
      lowestX <= Blocks(k)[j].x <= highestX && lowestY <= Blocks(k)[j].y <= 1
    ensures COLS - (highestX - lowestX) + lowestX > 0
  {
    hide Pieces, Blocks;
    OriginBlock(k);
  }

  lemma SpawnInside(k: nat, px: int, py: int, lowestX: int, highestX: int, lowestY: int, r: nat)
    requires k < NUM_PIECES
    requires -1 <= lowestX <= 0 && 0 <= highestX <= 2 && -2 <= lowestY <= 0
    requires forall j :: 0 <= j < 4 ==>
      lowestX <= Blocks(k)[j].x <= highestX && lowestY <= Blocks(k)[j].y <= 1
    requires py == -lowestY && px == -lowestX + r && r < COLS - (highestX - lowestX) + lowestX
    ensures AllInside(k, Rot(1, 0, 0, 1), px, py)
  {
    hide Pieces;
  }

  lemma LockedNone(g: seq<Cell>, k: nat, r: Rot, px: int, py: int)
    requires |g| == COLS * ROWS && k < NUM_PIECES && Fits(g, k, r, px, py)
    ensures Locked(g, k, r, px, py, 0) == g
  {
  }

  lemma LockedMore(g: seq<Cell>, k: nat, r: Rot, px: int, py: int, i: nat)
    requires |g| == COLS * ROWS && k < NUM_PIECES && Fits(g, k, r, px, py) && i < 4
    ensures var c := Place(k, r, px, py, i);
      Inside(c) && Locked(g, k, r, px, py, i + 1) == Locked(g, k, r, px, py, i)[c.y * COLS + c.x := Cell(k + 1, true)]
  {
    hide Place;
    assert !Occupied(g, Place(k, r, px, py, i));
  }

  /** What removing rows does to the count of cells and to the score cancels out. */
  lemma StillConserved(g: seq<Cell>, h: seq<Cell>, score: nat)
    requires |g| == |h| == COLS * ROWS && RowsOf(h) == Settled(RowsOf(g))
    ensures Count(h) == Count(g) - COLS * (ROWS - |Kept(RowsOf(g))|)
  {
    hide Count, Settled, Kept;
    CountIsRows(g);
    CountIsRows(h);
    CountSettled(RowsOf(g));
  }

  lemma NoneFullSettled(g: seq<Cell>, h: seq<Cell>)
    requires |g| == |h| == COLS * ROWS && RowsOf(h) == Settled(RowsOf(g))
    ensures NoneFull(h)
  {
    hide Kept, Full;
    EmptyIsNotFull();
    var rs := RowsOf(g);
    forall y | 0 <= y < ROWS ensures !Full(RowsOf(h)[y]) {
      var gone := ROWS - |Kept(rs)|;
      if y >= gone { KeptAreNotFull(rs, y - gone); }
    }
  }

  lemma NoneFullEmpty(g: seq<Cell>)
    requires |g| == COLS * ROWS && forall i :: 0 <= i < COLS * ROWS ==> g[i] == EMPTY
    ensures NoneFull(g)
  {
    forall y | 0 <= y < ROWS ensures !Full(RowsOf(g)[y]) {
      assert RowsOf(g)[y][0] == g[y * COLS];
    }
  }

  lemma RowReplaced(was: seq<Cell>, now: seq<Cell>, y: nat, row: Row)
    requires |was| == |now| == COLS * ROWS && y < ROWS && |row| == COLS
    requires now[y * COLS..y * COLS + COLS] == row
    requires forall i :: 0 <= i < y * COLS || y * COLS + COLS <= i < COLS * ROWS ==> now[i] == was[i]
    ensures RowsOf(now) == RowsOf(was)[y := row]
  {
    forall i | 0 <= i < ROWS && i != y ensures RowsOf(now)[i] == RowsOf(was)[i] {
      assert now[i * COLS..i * COLS + COLS] == was[i * COLS..i * COLS + COLS];
    }
  }

  lemma FullNone(row: Row)
    ensures Full(row[..0])
  {
  }

  lemma FullMore(row: Row, x: nat)
    requires x < |row|
    ensures Full(row[..x + 1]) <==> Full(row[..x]) && row[x].occupied
  {
    assert forall i :: 0 <= i < x ==> row[..x + 1][i] == row[..x][i];
    assert row[..x + 1][x] == row[x];
  }
}
