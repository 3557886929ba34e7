/**
 The tree behind a data control (libgwm/datactrl.c) without its pointers, and
 the order of its rows: the preorder of the nodes whose ancestors are all
 expanded.
 */
module TreeRows {
  import opened LinkedLists

  /**
   Which children every node has, in order; its parent; and when it was added.
   A child is always added after its parent, so `birth` shows that there are no
   cycles; no step of the program depends on it.
   */
  datatype Shape = Shape(
    root: Ptr, kids: map<Ptr, seq<Ptr>>, par: map<Ptr, Ptr>, birth: map<Ptr, nat>, next: nat)

  ghost predicate ChildOk(t: Shape, n: Ptr, c: Ptr) {
    && n in t.kids && c in t.kids && c in t.par && t.par[c] == n
    && n in t.birth && c in t.birth && t.birth[n] < t.birth[c]
  }

  ghost predicate ShapeOk(t: Shape) {
    && t.root in t.kids && t.root !in t.par
    && t.birth.Keys == t.kids.Keys && t.par.Keys == t.kids.Keys - {t.root}
    && (forall n :: n in t.kids ==> t.birth[n] < t.next && Distinct(t.kids[n]))
    && (forall n, i :: n in t.kids && 0 <= i < |t.kids[n]| ==> ChildOk(t, n, t.kids[n][i]))
    && (forall c :: c in t.par ==> t.par[c] in t.kids && c in t.kids[t.par[c]])
  }

  lemma ChildAt(t: Shape, n: Ptr, i: nat)
    requires ShapeOk(t) && n in t.kids && i < |t.kids[n]|
    ensures ChildOk(t, n, t.kids[n][i]) && t.birth[t.kids[n][i]] < t.next && t.kids[n][i] != t.root
  {
  }

  /** The rows of the children of n from the i-th on, where the nodes in open are expanded. */
  ghost function Rows(t: Shape, open: set<Ptr>, n: Ptr, i: nat): seq<Ptr>
    requires ShapeOk(t) && n in t.kids && i <= |t.kids[n]|
    decreases t.next - t.birth[n], |t.kids[n]| - i
  {
    if i == |t.kids[n]| then []
    else
      ChildAt(t, n, i);
      var c := t.kids[n][i];
      [c] + Below(t, open, c) + Rows(t, open, n, i + 1)
  }

  /** The rows that node c contributes below its own. */
  ghost function Below(t: Shape, open: set<Ptr>, c: Ptr): seq<Ptr>
    requires ShapeOk(t) && c in t.kids
    decreases t.next - t.birth[c], |t.kids[c]| + 1
  {
    if c in open then Rows(t, open, c, 0) else []
  }

  /** All rows of the control. */
  ghost function AllRows(t: Shape, open: set<Ptr>): seq<Ptr>
    requires ShapeOk(t)
  {
    Rows(t, open, t.root, 0)
  }

  /** The index of a node among its siblings. */
  ghost function IndexOf(t: Shape, c: Ptr): (i: nat)
    requires ShapeOk(t) && c in t.par
    ensures i < |t.kids[t.par[c]]| && t.kids[t.par[c]][i] == c
  {
    var i :| 0 <= i < |t.kids[t.par[c]]| && t.kids[t.par[c]][i] == c;
    i
  }

  lemma IndexIs(t: Shape, n: Ptr, i: nat)
    requires ShapeOk(t) && n in t.kids && i < |t.kids[n]|
    ensures ChildOk(t, n, t.kids[n][i]) && IndexOf(t, t.kids[n][i]) == i
  {
    ChildAt(t, n, i);
    var c := t.kids[n][i];
    var j := IndexOf(t, c);
    assert Distinct(t.kids[n]);
  }

  // ----- the DOWN key

  /**
   Where the walk upwards of the DOWN branch arrives from x: the next sibling of x or of
   its nearest ancestor that has one.
   */
  ghost function Skip(t: Shape, x: Ptr): Option<Ptr>
    requires ShapeOk(t) && x in t.par
    decreases t.birth[x]
  {
    var n, i := t.par[x], IndexOf(t, x);
    if i + 1 < |t.kids[n]| then Some(t.kids[n][i + 1])
    else if n == t.root then None
    else ChildAt(t, n, i); Skip(t, n)
  }

  lemma SkipOnce(t: Shape, x: Ptr)
    requires ShapeOk(t) && x in t.par
    ensures var n, i := t.par[x], IndexOf(t, x);
      Skip(t, x) ==
        if i + 1 < |t.kids[n]| then Some(t.kids[n][i + 1])
        else if n == t.root then None
        else (ChildAt(t, n, i); Skip(t, n))
  {
  }

  ghost function Down(t: Shape, open: set<Ptr>, x: Ptr): Option<Ptr>
    requires ShapeOk(t) && x in t.par
  {
    if x in open && t.kids[x] != [] then Some(t.kids[x][0]) else Skip(t, x)
  }

  ghost function SkipTop(t: Shape, n: Ptr): Option<Ptr>
    requires ShapeOk(t) && n in t.kids
  {
    if n == t.root then None else Skip(t, n)
  }

  lemma SkipAt(t: Shape, n: Ptr, i: nat)
    requires ShapeOk(t) && n in t.kids && i < |t.kids[n]|
    ensures t.kids[n][i] in t.par
    ensures Skip(t, t.kids[n][i]) == if i + 1 < |t.kids[n]| then Some(t.kids[n][i + 1]) else SkipTop(t, n)
  {
    IndexIs(t, n, i);
  }

  lemma RowsHead(t: Shape, open: set<Ptr>, n: Ptr, i: nat)
    requires ShapeOk(t) && n in t.kids && i <= |t.kids[n]|
    ensures Rows(t, open, n, i) == [] <==> i == |t.kids[n]|
    ensures i < |t.kids[n]| ==> Rows(t, open, n, i)[0] == t.kids[n][i]
  {
  }

  lemma {:induction false} RowsAreNodes(t: Shape, open: set<Ptr>, n: Ptr, i: nat, k: nat)
    requires ShapeOk(t) && n in t.kids && i <= |t.kids[n]| && k < |Rows(t, open, n, i)|
    ensures Rows(t, open, n, i)[k] in t.par && Rows(t, open, n, i)[k] in t.kids
    decreases t.next - t.birth[n], |t.kids[n]| - i
  {
    ChildAt(t, n, i);
    var c := t.kids[n][i];
    var b := Below(t, open, c);
    if k == 0 {
    } else if k <= |b| {
      RowsAreNodes(t, open, c, 0, k - 1);
    } else {
      RowsAreNodes(t, open, n, i + 1, k - 1 - |b|);
    }
  }

  /** Going down from a row reaches the next row; from the last, what follows n. */
  lemma {:induction false} DownIsNext(t: Shape, open: set<Ptr>, n: Ptr, i: nat, k: nat)
    requires ShapeOk(t) && n in t.kids && i <= |t.kids[n]| && k < |Rows(t, open, n, i)|
    ensures var s := Rows(t, open, n, i);
            s[k] in t.par && Down(t, open, s[k]) == if k + 1 < |s| then Some(s[k + 1]) else SkipTop(t, n)
    decreases t.next - t.birth[n], |t.kids[n]| - i
  {
    RowsAreNodes(t, open, n, i, k);
    ChildAt(t, n, i);
    var c := t.kids[n][i];
    var b, rest := Below(t, open, c), Rows(t, open, n, i + 1);
    SkipAt(t, n, i);
    RowsHead(t, open, n, i + 1);
    if c in open { RowsHead(t, open, c, 0); }
    if k == 0 {
    } else if k <= |b| {
      DownIsNext(t, open, c, 0, k - 1);
    } else {
      DownIsNext(t, open, n, i + 1, k - 1 - |b|);
    }
  }

  // ----- the UP key

  /** The last row of the subtree of c: its last child's, as long as it is expanded. */
  ghost function Deepest(t: Shape, open: set<Ptr>, c: Ptr): Ptr
    requires ShapeOk(t) && c in t.kids
    decreases t.next - t.birth[c]
  {
    if c in open && t.kids[c] != [] then
      ChildAt(t, c, |t.kids[c]| - 1);
      Deepest(t, open, t.kids[c][|t.kids[c]| - 1])
    else c
  }

  lemma DeepestOnce(t: Shape, open: set<Ptr>, c: Ptr)
    requires ShapeOk(t) && c in t.kids
    ensures Deepest(t, open, c) ==
      if c in open && t.kids[c] != [] then
        (ChildAt(t, c, |t.kids[c]| - 1); Deepest(t, open, t.kids[c][|t.kids[c]| - 1]))
      else c
  {
  }

  ghost function Up(t: Shape, open: set<Ptr>, x: Ptr): Option<Ptr>
    requires ShapeOk(t) && x in t.par
  {
    var n, i := t.par[x], IndexOf(t, x);
    if i > 0 then ChildAt(t, n, i - 1); Some(Deepest(t, open, t.kids[n][i - 1]))
    else if n != t.root then Some(n)
    else None
  }

  lemma {:induction false} RowsEndDeep(t: Shape, open: set<Ptr>, n: Ptr, i: nat)
    requires ShapeOk(t) && n in t.kids && i < |t.kids[n]|
    ensures t.kids[n][|t.kids[n]| - 1] in t.kids
    ensures var s := Rows(t, open, n, i); |s| > 0 && s[|s| - 1] == Deepest(t, open, t.kids[n][|t.kids[n]| - 1])
    decreases t.next - t.birth[n], |t.kids[n]| - i
  {
    ChildAt(t, n, i);
    if i + 1 < |t.kids[n]| {
      RowsEndDeep(t, open, n, i + 1);
    } else {
      BelowEndsDeep(t, open, t.kids[n][i]);
    }
  }

  lemma {:induction false} BelowEndsDeep(t: Shape, open: set<Ptr>, c: Ptr)
    requires ShapeOk(t) && c in t.kids
    ensures var s := [c] + Below(t, open, c); s[|s| - 1] == Deepest(t, open, c)
    decreases t.next - t.birth[c], |t.kids[c]| + 1
  {
    if c in open && t.kids[c] != [] {
      RowsEndDeep(t, open, c, 0);
    }
  }

  /** Where UP goes from the i-th child of n. */
  ghost function Before(t: Shape, open: set<Ptr>, n: Ptr, i: nat): Option<Ptr>
    requires ShapeOk(t) && n in t.kids && i < |t.kids[n]|
  {
    if i > 0 then ChildAt(t, n, i - 1); Some(Deepest(t, open, t.kids[n][i - 1]))
    else if n != t.root then Some(n) else None
  }

  /** Going up from a row reaches the row before it; from the first, what precedes it. */
  lemma {:induction false} UpIsPrevious(t: Shape, open: set<Ptr>, n: Ptr, i: nat, k: nat)
    requires ShapeOk(t) && n in t.kids && i < |t.kids[n]| && k < |Rows(t, open, n, i)|
    ensures var s := Rows(t, open, n, i);
            s[k] in t.par && Up(t, open, s[k]) == if k > 0 then Some(s[k - 1]) else Before(t, open, n, i)
    decreases t.next - t.birth[n], |t.kids[n]| - i
  {
    RowsAreNodes(t, open, n, i, k);
    ChildAt(t, n, i);
    IndexIs(t, n, i);
    var c := t.kids[n][i];
    var b := Below(t, open, c);
    if k == 0 {
    } else if k <= |b| {
      RowsHead(t, open, c, 0);
      UpIsPrevious(t, open, c, 0, k - 1);
    } else {
      UpIsPrevious(t, open, n, i + 1, k - 1 - |b|);
      BelowEndsDeep(t, open, c);
    }
  }

  /**
   The arrow keys walk the rows: DOWN is the successor and UP the predecessor,
   and neither leaves the ends.
   */
  lemma ArrowsWalkRows(t: Shape, open: set<Ptr>, k: nat)
    requires ShapeOk(t) && k < |AllRows(t, open)|
    ensures var r := AllRows(t, open);
            && r[k] in t.par
            && Down(t, open, r[k]) == (if k + 1 < |r| then Some(r[k + 1]) else None)
            && Up(t, open, r[k]) == (if k > 0 then Some(r[k - 1]) else None)
  {
    RowsHead(t, open, t.root, 0);
    DownIsNext(t, open, t.root, 0, k);
    UpIsPrevious(t, open, t.root, 0, k);
  }

  /** So they undo each other. */
  lemma ArrowsInverse(t: Shape, open: set<Ptr>, x: Ptr)
    requires ShapeOk(t) && x in AllRows(t, open)
    ensures x in t.par
    ensures Down(t, open, x).Some? ==>
              Down(t, open, x).value in t.par && Up(t, open, Down(t, open, x).value) == Some(x)
    ensures Up(t, open, x).Some? ==>
              Up(t, open, x).value in t.par && Down(t, open, Up(t, open, x).value) == Some(x)
  {
    var k :| 0 <= k < |AllRows(t, open)| && AllRows(t, open)[k] == x;
    ArrowsWalkRows(t, open, k);
    if k + 1 < |AllRows(t, open)| { ArrowsWalkRows(t, open, k + 1); }
    if k > 0 { ArrowsWalkRows(t, open, k - 1); }
  }

  // ----- every node has one row

  /** x is c or below it. */
  ghost predicate Under(t: Shape, x: Ptr, c: Ptr)
    requires ShapeOk(t) && x in t.kids
    decreases t.birth[x]
  {
    x == c || (x in t.par && (ParentOk(t, x); Under(t, t.par[x], c)))
  }

  lemma ParentOk(t: Shape, x: Ptr)
    requires ShapeOk(t) && x in t.par
    ensures x in t.kids && t.par[x] in t.kids && t.birth[t.par[x]] < t.birth[x]
  {
    ChildAt(t, t.par[x], IndexOf(t, x));
  }

  lemma {:induction false} UnderIsYounger(t: Shape, x: Ptr, c: Ptr)
    requires ShapeOk(t) && x in t.kids && Under(t, x, c)
    ensures c in t.kids && t.birth[c] <= t.birth[x]
    decreases t.birth[x]
  {
    if x != c {
      ParentOk(t, x);
      UnderIsYounger(t, t.par[x], c);
    }
  }

  lemma {:induction false} UnderTransitive(t: Shape, x: Ptr, y: Ptr, z: Ptr)
    requires ShapeOk(t) && x in t.kids && y in t.kids && Under(t, x, y) && Under(t, y, z)
    ensures Under(t, x, z)
    decreases t.birth[x]
  {
    if x != y {
      ParentOk(t, x);
      UnderTransitive(t, t.par[x], y, z);
    }
  }

  /** Siblings have no descendant in common. */
  lemma {:induction false} UnderOne(t: Shape, x: Ptr, c: Ptr, d: Ptr)
    requires ShapeOk(t) && x in t.kids && c in t.par && d in t.par && t.par[c] == t.par[d]
    requires Under(t, x, c) && Under(t, x, d)
    ensures c == d
    decreases t.birth[x]
  {
    ParentOk(t, c);
    ParentOk(t, d);
    if x == c && c != d {
      UnderIsYounger(t, t.par[c], d);
      assert false;
    } else if x == d && c != d {
      UnderIsYounger(t, t.par[d], c);
      assert false;
    } else if x != c {
      ParentOk(t, x);
      UnderOne(t, t.par[x], c, d);
    }
  }

  /** The rows of Rows(n, i) lie under the children of n from the i-th on. */
  lemma {:induction false} RowUnder(t: Shape, open: set<Ptr>, n: Ptr, i: nat, k: nat) returns (j: nat)
    requires ShapeOk(t) && n in t.kids && i <= |t.kids[n]| && k < |Rows(t, open, n, i)|
    ensures i <= j < |t.kids[n]| && Rows(t, open, n, i)[k] in t.kids && Under(t, Rows(t, open, n, i)[k], t.kids[n][j])
    decreases t.next - t.birth[n], |t.kids[n]| - i
  {
    RowsAreNodes(t, open, n, i, k);
    ChildAt(t, n, i);
    var c := t.kids[n][i];
    var b := Below(t, open, c);
    if k == 0 {
      j := i;
    } else if k <= |b| {
      var m := RowUnder(t, open, c, 0, k - 1);
      ChildAt(t, c, m);
      UnderChild(t, c, m);
      UnderTransitive(t, b[k - 1], t.kids[c][m], c);
      j := i;
    } else {
      j := RowUnder(t, open, n, i + 1, k - 1 - |b|);
    }
  }

  lemma UnderChild(t: Shape, n: Ptr, i: nat)
    requires ShapeOk(t) && n in t.kids && i < |t.kids[n]|
    ensures t.kids[n][i] in t.kids && Under(t, t.kids[n][i], n)
  {
    ChildAt(t, n, i);
  }

  lemma {:induction false} RowsDistinct(t: Shape, open: set<Ptr>, n: Ptr, i: nat)
    requires ShapeOk(t) && n in t.kids && i <= |t.kids[n]|
    ensures Distinct(Rows(t, open, n, i)) && n !in Rows(t, open, n, i)
    decreases t.next - t.birth[n], |t.kids[n]| - i
  {
    if i < |t.kids[n]| {
      ChildAt(t, n, i);
      var c := t.kids[n][i];
      var b, rest := Below(t, open, c), Rows(t, open, n, i + 1);
      RowsDistinct(t, open, c, 0);
      RowsDistinct(t, open, n, i + 1);
      forall k | 0 <= k < |b| ensures b[k] != c && b[k] != n && b[k] !in rest {
        BelowApart(t, open, n, i, k);
      }
      assert c !in rest by { ChildApart(t, open, n, i); }
    }
  }

  lemma ChildApart(t: Shape, open: set<Ptr>, n: Ptr, i: nat)
    requires ShapeOk(t) && n in t.kids && i < |t.kids[n]|
    ensures t.kids[n][i] !in Rows(t, open, n, i + 1)
  {
    ChildAt(t, n, i);
    var c, rest := t.kids[n][i], Rows(t, open, n, i + 1);
    forall k | 0 <= k < |rest| ensures rest[k] != c {
      var j := RowUnder(t, open, n, i + 1, k);
      if rest[k] == c {
        ChildAt(t, n, j);
        UnderOne(t, c, c, t.kids[n][j]);
        assert false;
      }
    }
  }

  lemma BelowApart(t: Shape, open: set<Ptr>, n: Ptr, i: nat, k: nat)
    requires ShapeOk(t) && n in t.kids && i < |t.kids[n]| && t.kids[n][i] in t.kids
    requires k < |Below(t, open, t.kids[n][i])|
    ensures var c := t.kids[n][i]; var b := Below(t, open, c);
            b[k] != c && b[k] != n && b[k] !in Rows(t, open, n, i + 1)
  {
    ChildAt(t, n, i);
    var c, rest := t.kids[n][i], Rows(t, open, n, i + 1);
    var b := Below(t, open, c);
    var m := RowUnder(t, open, c, 0, k);
    ChildAt(t, c, m);
    UnderIsYounger(t, b[k], t.kids[c][m]);
    UnderChild(t, c, m);
    UnderTransitive(t, b[k], t.kids[c][m], c);
    forall q | 0 <= q < |rest| ensures rest[q] != b[k] {
      var j := RowUnder(t, open, n, i + 1, q);
      if rest[q] == b[k] {
        ChildAt(t, n, j);
        UnderOne(t, b[k], c, t.kids[n][j]);
        assert false;
      }
    }
  }

  // ----- expanding a node

  /** Where a node has no row, expanding it shows nothing. */
  lemma {:induction false} ExpandElsewhere(t: Shape, open: set<Ptr>, x: Ptr, n: Ptr, i: nat)
    requires ShapeOk(t) && n in t.kids && i <= |t.kids[n]| && x !in Rows(t, open, n, i)
    ensures Rows(t, open + {x}, n, i) == Rows(t, open, n, i)
    decreases t.next - t.birth[n], |t.kids[n]| - i
  {
    if i < |t.kids[n]| {
      ChildAt(t, n, i);
      var c := t.kids[n][i];
      if c in open { ExpandElsewhere(t, open, x, c, 0); }
      ExpandElsewhere(t, open, x, n, i + 1);
    }
  }

  /** Where it has one, its own rows come directly behind. */
  lemma {:induction false} ExpandInserts(t: Shape, open: set<Ptr>, x: Ptr, n: Ptr, i: nat) returns (k: nat)
    requires ShapeOk(t) && n in t.kids && i <= |t.kids[n]| && x in t.kids && x !in open && x in Rows(t, open, n, i)
    ensures var r := Rows(t, open, n, i);
      k < |r| && r[k] == x && Rows(t, open + {x}, n, i) == r[..k + 1] + Rows(t, open, x, 0) + r[k + 1..]
    decreases t.next - t.birth[n], |t.kids[n]| - i
  {
    hide ShapeOk, Rows, Below;
    RowsStep(t, open, n, i);
    RowsStep(t, open + {x}, n, i);
    var c := t.kids[n][i];
    var b, rest, own := Below(t, open, c), Rows(t, open, n, i + 1), Rows(t, open, x, 0);
    if x == c {
      ChildApart(t, open, n, i);
      ExpandElsewhere(t, open, x, n, i + 1);
      BelowItself(t, open, x);
      k := 0;
      InsertBehind([], [c], rest, own, 0);
    } else if x in b {
      BelowOpen(t, open, x, c);
      var j := ExpandInserts(t, open, x, c, 0);
      BelowApart(t, open, n, i, j);
      ExpandElsewhere(t, open, x, n, i + 1);
      k := j + 1;
      InsertBehind([c], b, rest, own, j);
    } else {
      assert x in rest;
      var j := ExpandInserts(t, open, x, n, i + 1);
      BelowElsewhere(t, open, x, c);
      k := j + 1 + |b|;
      InsertBehind([c] + b, rest, [], own, j);
    }
  }

  lemma RowsStep(t: Shape, open: set<Ptr>, n: Ptr, i: nat)
    requires ShapeOk(t) && n in t.kids && i <= |t.kids[n]|
    ensures i == |t.kids[n]| ==> Rows(t, open, n, i) == []
    ensures i < |t.kids[n]| ==>
      var c := t.kids[n][i];
      && c in t.kids && t.birth.Keys == t.kids.Keys && t.birth[n] < t.birth[c] < t.next
      && Rows(t, open, n, i) == [c] + Below(t, open, c) + Rows(t, open, n, i + 1)
  {
    if i < |t.kids[n]| { ChildAt(t, n, i); }
  }

  lemma BelowElsewhere(t: Shape, open: set<Ptr>, x: Ptr, c: Ptr)
    requires ShapeOk(t) && c in t.kids && c != x && x !in Below(t, open, c)
    ensures Below(t, open + {x}, c) == Below(t, open, c)
  {
    if c in open { ExpandElsewhere(t, open, x, c, 0); }
  }

  lemma BelowOpen(t: Shape, open: set<Ptr>, x: Ptr, c: Ptr)
    requires ShapeOk(t) && c in t.kids && x in Below(t, open, c)
    ensures Below(t, open, c) == Rows(t, open, c, 0) && Below(t, open + {x}, c) == Rows(t, open + {x}, c, 0)
  {
  }

  lemma {:induction false} BelowItself(t: Shape, open: set<Ptr>, x: Ptr)
    requires ShapeOk(t) && x in t.kids && x !in open
    ensures Below(t, open, x) == [] && Below(t, open + {x}, x) == Rows(t, open, x, 0)
  {
    RowsDistinct(t, open, x, 0);
    ExpandElsewhere(t, open, x, x, 0);
  }

  lemma InsertBehind(a: seq<Ptr>, m: seq<Ptr>, b: seq<Ptr>, own: seq<Ptr>, j: nat)
    requires j < |m|
    ensures var r, k := a + m + b, |a| + j;
      && r[k] == m[j]
      && a + (m[..j + 1] + own + m[j + 1..]) + b == r[..k + 1] + own + r[k + 1..]
  {
    var r, k := a + m + b, |a| + j;
    assert r[..k + 1] == a + m[..j + 1] && r[k + 1..] == m[j + 1..] + b;
  }

  // ----- with every node expanded, every node has a row

  lemma {:induction false} ChildInRows(t: Shape, open: set<Ptr>, n: Ptr, i: nat, j: nat)
    requires ShapeOk(t) && n in t.kids && i <= j < |t.kids[n]|
    ensures t.kids[n][j] in Rows(t, open, n, i)
    decreases |t.kids[n]| - i
  {
    ChildAt(t, n, i);
    if i < j { ChildInRows(t, open, n, i + 1, j); }
  }

  lemma {:induction false} ChildAfterParent(t: Shape, open: set<Ptr>, n: Ptr, i: nat, p: Ptr, j: nat)
    requires ShapeOk(t) && n in t.kids && i <= |t.kids[n]|
    requires p in Rows(t, open, n, i) && p in open && p in t.kids && j < |t.kids[p]|
    ensures t.kids[p][j] in Rows(t, open, n, i)
    decreases t.next - t.birth[n], |t.kids[n]| - i
  {
    ChildAt(t, n, i);
    var c := t.kids[n][i];
    if p == c {
      ChildInRows(t, open, c, 0, j);
    } else if p in Below(t, open, c) {
      ChildAfterParent(t, open, c, 0, p, j);
    } else {
      ChildAfterParent(t, open, n, i + 1, p, j);
    }
  }

  lemma {:induction false} EveryNodeHasRow(t: Shape, open: set<Ptr>, x: Ptr)
    requires ShapeOk(t) && x in t.par && open == t.kids.Keys
    ensures x in AllRows(t, open)
    decreases t.birth[x]
  {
    ParentOk(t, x);
    var p, i := t.par[x], IndexOf(t, x);
    if p == t.root {
      ChildInRows(t, open, p, 0, i);
    } else {
      EveryNodeHasRow(t, open, p);
      ChildAfterParent(t, open, t.root, 0, p, i);
    }
  }
}
