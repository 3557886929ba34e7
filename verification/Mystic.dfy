/**
 The fifteen puzzle of guiapps/mystic.c: clicking and scrambling keep a parity
 that tells which boards can never come up.
 */
module Mystic {
  const SPACE := 16

  function Solved(): (g: seq<int>)
    ensures |g| == 16 && forall i :: 0 <= i < 16 ==> g[i] == i + 1
  {
    seq(16, i => i + 1)
  }

  /** A board holds each of the numbers 1 to 16 once; 16 is the space. */
  ghost predicate IsBoard(g: seq<int>) {
    |g| == 16 && multiset(g) == multiset(Solved())
  }

  function Swap(s: seq<int>, i: nat, j: nat): (r: seq<int>)
    requires i < |s| && j < |s|
    ensures |r| == |s|
  {
    s[i := s[j]][j := s[i]]
  }

  // ---- Inversions ----

  function CountBelow(s: seq<int>, v: int): nat {
    if s == [] then 0 else (if s[0] < v then 1 else 0) + CountBelow(s[1..], v)
  }

  /** The number of pairs that are in the wrong order. */
  function Inversions(s: seq<int>): nat {
    if s == [] then 0 else CountBelow(s[1..], s[0]) + Inversions(s[1..])
  }

  predicate AllDistinct(s: seq<int>) {
    forall i, j :: 0 <= i < j < |s| ==> s[i] != s[j]
  }

  lemma {:induction false} CountBelowAdjacent(s: seq<int>, v: int, i: nat)
    requires i + 1 < |s|
    ensures CountBelow(Swap(s, i, i + 1), v) == CountBelow(s, v)
  {
    var t := Swap(s, i, i + 1);
    if i == 0 {
      assert t[1..][1..] == s[1..][1..];
    } else {
      assert t[1..] == Swap(s[1..], i - 1, i);
      CountBelowAdjacent(s[1..], v, i - 1);
    }
  }

  lemma {:induction false} AdjacentFlips(s: seq<int>, i: nat)
    requires i + 1 < |s| && s[i] != s[i + 1]
    ensures Inversions(Swap(s, i, i + 1)) % 2 != Inversions(s) % 2
  {
    var t := Swap(s, i, i + 1);
    if i == 0 {
      var r := s[1..][1..];
      assert t[1..][1..] == r;
    } else {
      assert t[1..] == Swap(s[1..], i - 1, i);
      CountBelowAdjacent(s[1..], s[0], i - 1);
      AdjacentFlips(s[1..], i - 1);
    }
  }

  /** Exchanging any two entries changes the parity: it is an odd number of neighbour exchanges. */
  lemma {:induction false} ExchangeFlips(s: seq<int>, i: nat, j: nat)
    requires i < j < |s| && AllDistinct(s)
    ensures Inversions(Swap(s, i, j)) % 2 != Inversions(s) % 2
    decreases j - i
  {
    hide Inversions;
    if j == i + 1 {
      AdjacentFlips(s, i);
    } else {
      var a := Swap(s, i, i + 1);
      AdjacentFlips(s, i);
      ExchangeFlips(a, i + 1, j);
      var b := Swap(a, i + 1, j);
      AdjacentFlips(b, i);
      assert Swap(b, i, i + 1) == Swap(s, i, j);
    }
  }

  // ---- Boards and moves ----

  predicate Neighbours(a: nat, b: nat) {
    && a < 16 && b < 16
    && ((a / 4 == b / 4 && (a == b + 1 || b == a + 1)) || a == b + 4 || b == a + 4)
  }

  /** Places are next to each other exactly if they are one step apart, across or down. */
  lemma NeighboursAreOneApart(a: nat, b: nat)
    requires a < 16 && b < 16
    ensures
      var dx, dy := a % 4 - b % 4, a / 4 - b / 4;
      Neighbours(a, b) <==> (if dx < 0 then -dx else dx) + (if dy < 0 then -dy else dy) == 1
  {
  }

  /** The space and a neighbouring tile change places. */
  ghost predicate Moves(g: seq<int>, h: seq<int>, space: nat, tile: nat) {
    && |g| == 16 && Neighbours(space, tile)
    && g[space] == SPACE && h == Swap(g, space, tile)
  }

  ghost predicate IsMove(g: seq<int>, h: seq<int>) {
    exists space: nat, tile: nat :: Moves(g, h, space, tile)
  }

  lemma {:induction false} MultisetHas(s: seq<int>, t: seq<int>, v: int)
    requires multiset(s) == multiset(t) && v in t
    ensures v in s
  {
    assert v in multiset(t);
  }

  lemma BoardFacts(g: seq<int>)
    requires IsBoard(g)
    ensures AllDistinct(g) && SPACE in g
  {
    assert Solved()[15] == SPACE;
    MultisetHas(g, Solved(), SPACE);
    forall i, j | 0 <= i < j < |g| ensures g[i] != g[j] {
      if g[i] == g[j] {
        TwiceInMultiset(g, i, j);
        DistinctOnce(Solved(), g[i]);
        assert false;
      }
    }
  }

  lemma TwiceInMultiset(s: seq<int>, i: nat, j: nat)
    requires i < j < |s| && s[i] == s[j]
    ensures multiset(s)[s[i]] >= 2
  {
    assert s == s[..j] + s[j..];
    assert s[i] in multiset(s[..j]) by { assert s[..j][i] == s[i]; }
    assert s[j] in multiset(s[j..]) by { assert s[j..][0] == s[j]; }
  }

  lemma HeadNotAgain(s: seq<int>)
    requires AllDistinct(s) && s != []
    ensures s[0] !in s[1..]
  {
  }

  lemma {:induction false} DistinctOnce(s: seq<int>, v: int)
    requires AllDistinct(s)
    ensures multiset(s)[v] <= 1
  {
    if s != [] {
      var r := s[1..];
      DistinctOnce(r, v);
      assert s == [s[0]] + r;
      HeadNotAgain(s);
    }
  }

  function SpaceAt(g: seq<int>): (b: nat)
    requires SPACE in g
    ensures b < |g| && g[b] == SPACE && SPACE !in g[..b]
  {
    if g[0] == SPACE then 0 else 1 + SpaceAt(g[1..])
  }

  lemma SpaceIs(g: seq<int>, b: nat)
    requires AllDistinct(g) && b < |g| && g[b] == SPACE
    ensures SpaceAt(g) == b
  {
  }

  /** The parity that no move changes: that of the inversions plus the space's row and column. */
  function Signature(g: seq<int>): nat
    requires SPACE in g
  {
    (Inversions(g) + SpaceAt(g) / 4 + SpaceAt(g) % 4) % 2
  }

  lemma SwapKeepsBoard(g: seq<int>, i: nat, j: nat)
    requires IsBoard(g) && i < 16 && j < 16 && i != j
    ensures IsBoard(Swap(g, i, j))
  {
    hide Solved;
    assert multiset(Swap(g, i, j)) == multiset(g);
  }

  lemma SwapTurned(g: seq<int>, i: nat, j: nat)
    requires i < |g| && j < |g|
    ensures Swap(g, i, j) == Swap(g, j, i)
  {
  }

  lemma NeighboursDiffer(a: nat, b: nat)
    requires Neighbours(a, b)
    ensures a != b && Neighbours(b, a) && (a / 4 + a % 4) % 2 != (b / 4 + b % 4) % 2
  {
  }

  lemma SwapFlips(g: seq<int>, i: nat, j: nat)
    requires IsBoard(g) && i < 16 && j < 16 && i != j
    ensures Inversions(Swap(g, i, j)) % 2 != Inversions(g) % 2
  {
    hide Inversions;
    BoardFacts(g);
    if i < j {
      ExchangeFlips(g, i, j);
    } else {
      SwapTurned(g, i, j);
      ExchangeFlips(g, j, i);
    }
  }

  lemma SwapMovesSpace(g: seq<int>, space: nat, tile: nat)
    requires IsBoard(g) && space < 16 && tile < 16 && g[space] == SPACE
    ensures SPACE in g && SpaceAt(g) == space
    ensures var h := Swap(g, space, tile); SPACE in h && SpaceAt(h) == tile
  {
    hide Inversions, SpaceAt, Solved;
    BoardFacts(g);
    SpaceIs(g, space);
    var h := Swap(g, space, tile);
    assert h[tile] == SPACE;
    if space != tile { SwapKeepsBoard(g, space, tile); BoardFacts(h); SpaceIs(h, tile); }
  }

  /** A move keeps the board and its signature, and another move undoes it. */
  lemma MoveKeeps(g: seq<int>, h: seq<int>)
    requires IsBoard(g) && IsMove(g, h)
    ensures IsBoard(h) && SPACE in g && SPACE in h && Signature(h) == Signature(g)
    ensures IsMove(h, g)
  {
    hide Inversions, IsBoard, SpaceAt, AllDistinct, Solved, Neighbours, Signature;
    var space: nat, tile: nat :| Moves(g, h, space, tile);
    NeighboursDiffer(space, tile);
    SwapKeepsBoard(g, space, tile);
    SwapMovesSpace(g, space, tile);
    SwapFlips(g, space, tile);
    SignatureOf(g, space);
    SignatureOf(h, tile);
    MovesBack(g, h, space, tile);
  }

  lemma SignatureOf(g: seq<int>, b: nat)
    requires SPACE in g && SpaceAt(g) == b
    ensures Signature(g) == if Inversions(g) % 2 == (b / 4 + b % 4) % 2 then 0 else 1
  {
    hide Inversions, SpaceAt;
  }

  lemma MovesBack(g: seq<int>, h: seq<int>, space: nat, tile: nat)
    requires Moves(g, h, space, tile)
    ensures Moves(h, g, tile, space)
  {
    NeighboursDiffer(space, tile);
  }

  ghost predicate RunStep(g: seq<int>, h: seq<int>) { h == g || IsMove(g, h) }

  /** A run: each board is the one before it or one move away from it. */
  ghost predicate IsRun(run: seq<seq<int>>) {
    |run| > 0 && forall k :: 0 <= k < |run| - 1 ==> RunStep(run[k], run[k + 1])
  }

  lemma {:induction false} RunKeeps(run: seq<seq<int>>)
    requires IsRun(run) && IsBoard(run[0])
    ensures var last := run[|run| - 1];
      IsBoard(last) && SPACE in run[0] && SPACE in last && Signature(last) == Signature(run[0])
  {
    hide IsMove, IsBoard, Signature;
    BoardFacts(run[0]);
    var k := 0;
    while k < |run| - 1
      invariant 0 <= k < |run| && IsBoard(run[k]) && SPACE in run[0] && SPACE in run[k]
      invariant Signature(run[k]) == Signature(run[0])
    {
      assert RunStep(run[k], run[k + 1]);
      if run[k + 1] != run[k] { MoveKeeps(run[k], run[k + 1]); }
      k := k + 1;
    }
  }

  lemma SolvedIsBoard()
    ensures IsBoard(Solved()) && Solved()[15] == SPACE
  {
  }

  /** Whatever is clicked or scrambled, the solved board with two tiles exchanged never comes up. */
  lemma TwoExchangedNeverReached(run: seq<seq<int>>, i: nat, j: nat)
    requires IsRun(run) && run[0] == Solved() && i < j < 15
    ensures run[|run| - 1] != Swap(Solved(), i, j)
  {
    hide Inversions, SpaceAt, IsRun, IsBoard, AllDistinct, Solved;
    SolvedIsBoard();
    RunKeeps(run);
    BoardFacts(Solved());
    var t := Swap(Solved(), i, j);
    SwapKeepsBoard(Solved(), i, j);
    BoardFacts(t);
    ExchangeFlips(Solved(), i, j);
    SpaceIs(Solved(), 15);
    SpaceIs(t, 15);
  }

  /** Every board a run reaches can be brought back by a run. */
  lemma {:induction false} RunUndone(run: seq<seq<int>>) returns (back: seq<seq<int>>)
    requires IsRun(run) && IsBoard(run[0])
    ensures IsRun(back) && back[0] == run[|run| - 1] && back[|back| - 1] == run[0]
    decreases |run|
  {
    hide IsMove, IsBoard;
    if |run| == 1 {
      back := run;
    } else {
      var rest := run[1..];
      assert RunStep(run[0], run[1]);
      forall k | 0 <= k < |rest| - 1 ensures RunStep(rest[k], rest[k + 1]) {
        assert RunStep(run[k + 1], run[k + 1 + 1]);
      }
      if run[1] != run[0] { MoveKeeps(run[0], run[1]); }
      var b := RunUndone(rest);
      back := b + [run[0]];
      assert RunStep(b[|b| - 1], run[0]);
      forall k | 0 <= k < |back| - 1 ensures RunStep(back[k], back[k + 1]) {
        if k < |b| - 1 { assert RunStep(b[k], b[k + 1]); }
      }
    }
  }

  // ---- The program ----

  class Puzzle {
    const grid: array<int>

    ghost predicate Valid()
      reads this, grid
    {
      grid.Length == 16 && IsBoard(grid[..])
    }

    constructor ()
      ensures Valid() && fresh(grid) && grid[..] == Solved()
    {
      var g := new int[16](i => i + 1);
      grid := g;
      new;
      assert grid[..] == Solved();
    }

    /** isSolved. */
    method IsSolved() returns (solved: bool)
      requires Valid()
      ensures solved <==> grid[..] == Solved()
    {
      for i := 0 to 16
        invariant forall k :: 0 <= k < i ==> grid[k] == k + 1
      {
        if grid[i] != i + 1 {
          assert Solved()[i] == i + 1;
          return false;
        }
      }
      assert grid[..] == Solved();
      return true;
    }

    /** The space at `at` and the tile at index change places. */
    method MoveTile(index: nat, at: nat)
      requires Valid() && index < 16 && at < 16 && Neighbours(at, index) && grid[at] == SPACE
      modifies grid
      ensures Valid() && IsMove(old(grid[..]), grid[..])
      ensures grid[..] == Swap(old(grid[..]), at, index)
    {
      grid[at] := grid[index];
      grid[index] := SPACE;
      assert grid[..] == Swap(old(grid[..]), at, index);
      SwapKeepsBoard(old(grid[..]), at, index);
      assert Moves(old(grid[..]), grid[..], at, index);
    }

    /**
     clickTile: the tile moves into the space if the space is next to it, and
     otherwise nothing happens.
     */
    method ClickTile(x: int, y: int)
      requires Valid()
      modifies grid
      ensures Valid()
      ensures var inside := 0 <= x <= 3 && 0 <= y <= 3;
        if inside && SPACE in old(grid[..]) && Neighbours(SpaceAt(old(grid[..])), y * 4 + x) then
          grid[..] == Swap(old(grid[..]), SpaceAt(old(grid[..])), y * 4 + x)
        else grid[..] == old(grid[..])
      ensures RunStep(old(grid[..]), grid[..])
    {
      hide IsBoard, SpaceAt, IsMove;
      ghost var was := grid[..];
      BoardFacts(was);
      if x < 0 || x > 3 || y < 0 || y > 3 { return; }
      var index := y * 4 + x;
      if grid[index] == SPACE {
        SpaceIs(was, index);
        return;
      }
      if x != 0 && grid[index - 1] == SPACE {
        SpaceIs(was, index - 1);
        MoveTile(index, index - 1);
        return;
      }
      if x != 3 && grid[index + 1] == SPACE {
        SpaceIs(was, index + 1);
        MoveTile(index, index + 1);
        return;
      }
      if y != 0 && grid[index - 4] == SPACE {
        SpaceIs(was, index - 4);
        MoveTile(index, index - 4);
        return;
      }
      if y != 3 && grid[index + 4] == SPACE {
        SpaceIs(was, index + 4);
        MoveTile(index, index + 4);
        return;
      }
      var s := SpaceAt(was);
      assert was[s] == SPACE;
    }

    /** onScramble: a hundred random moves; `picks` are the random numbers. */
    method Scramble(picks: seq<nat>) returns (ghost run: seq<seq<int>>)
      requires Valid() && |picks| == 100
      modifies grid
      ensures Valid()
      ensures IsRun(run) && |run| == 101 && run[0] == old(grid[..]) && run[100] == grid[..]
      ensures forall k :: 0 <= k < 100 ==> IsMove(run[k], run[k + 1])
    {
      hide IsBoard, SpaceAt, IsMove;
      run := [grid[..]];
      for count := 0 to 100
        invariant Valid()
        invariant |run| == count + 1 && run[0] == old(grid[..]) && run[count] == grid[..]
        invariant forall k :: 0 <= k < count ==> IsMove(run[k], run[k + 1])
      {
        BoardFacts(grid[..]);
        var spaceAt := FindSpace();
        var dest := PickDest(spaceAt, picks[count]);
        MoveTile(dest, spaceAt);
        run := run + [grid[..]];
      }
    }

    /** One of the places that a tile can come from. */
    method PickDest(spaceAt: nat, pick: nat) returns (dest: nat)
      requires spaceAt < 16
      ensures Neighbours(spaceAt, dest)
    {
      var spaceY, spaceX := spaceAt / 4, spaceAt % 4;
      var destList := new nat[4];
      var destFound := 0;
      if spaceX != 0 { destList[destFound] := spaceAt - 1; destFound := destFound + 1; }
      if spaceX != 3 { destList[destFound] := spaceAt + 1; destFound := destFound + 1; }
      if spaceY != 0 { destList[destFound] := spaceAt - 4; destFound := destFound + 1; }
      if spaceY != 3 { destList[destFound] := spaceAt + 4; destFound := destFound + 1; }
      assert 2 <= destFound <= 4 && forall d :: 0 <= d < destFound ==> Neighbours(spaceAt, destList[d]);
      dest := destList[pick % destFound];
    }

    method FindSpace() returns (spaceAt: nat)
      requires Valid() && SPACE in grid[..]
      ensures spaceAt < 16 && grid[spaceAt] == SPACE
    {
      spaceAt := 0;
      while spaceAt < 16
        invariant spaceAt <= 16 && forall k :: 0 <= k < spaceAt ==> grid[..][k] != SPACE
      {
        if grid[spaceAt] == SPACE { return; }
        spaceAt := spaceAt + 1;
      }
      assert false;
    }
  }
}
