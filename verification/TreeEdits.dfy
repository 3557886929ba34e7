/**
 Adding a node to the tree of a data control, and deleting one with everything
 below it (libgwm/datactrl.c:845-925, 959-1023).
 */
module TreeEdits {
  import opened LinkedLists
  import opened TreeRows
  import opened TreeMemory

  // ---- Adding a node ----

  /** Node p is a new child of n, the i-th. */
  ghost function AddShape(t: Shape, n: Ptr, i: nat, p: Ptr): Shape
    requires n in t.kids && i <= |t.kids[n]|
  {
    t.(kids := t.kids[p := []][n := Inserted(t.kids[n], i, p)], par := t.par[p := n],
       birth := t.birth[p := t.next], next := t.next + 1)
  }

  function NewItem(n: Ptr): Item { Item(None, Some(n), false, false, 0) }

  /** The new node between its neighbours, and first of the children if it has none before it. */
  function Added(h: Memory, n: Ptr, before: Option<Ptr>, after: Option<Ptr>, p: Ptr): Memory {
    var g := Insert(h, before, after, p, NewItem(n));
    if before == None && n in g then g[n := g[n].(data := g[n].data.(children := Some(p)))] else g
  }

  lemma {:induction false} AddShapeOk(t: Shape, n: Ptr, i: nat, p: Ptr)
    requires ShapeOk(t) && n in t.kids && i <= |t.kids[n]| && p !in t.kids
    ensures ShapeOk(AddShape(t, n, i, p))
  {
    hide Inserted, Distinct, ChildOk;
    var u := AddShape(t, n, i, p);
    ShapeParts(t);
    forall m | m in u.kids ensures Distinct(u.kids[m]) {
      if m == n {
        KidsAreNodes(t, n);
        InsertedDistinct(t.kids[n], i, p);
      } else if m == p {
        NoneDistinct();
      } else {
        KidsAreNodes(t, m);
      }
    }
    forall m, j | m in u.kids && 0 <= j < |u.kids[m]| ensures ChildOk(u, m, u.kids[m][j]) {
      AddedChild(t, n, i, p, m, j);
    }
    forall c | c in u.par ensures u.par[c] in u.kids && c in u.kids[u.par[c]] {
      AddedParent(t, n, i, p, c);
    }
  }

  lemma NoneDistinct()
    ensures Distinct([])
  {
  }

  lemma AddedChild(t: Shape, n: Ptr, i: nat, p: Ptr, m: Ptr, j: nat)
    requires ShapeOk(t) && n in t.kids && i <= |t.kids[n]| && p !in t.kids
    requires m in AddShape(t, n, i, p).kids && j < |AddShape(t, n, i, p).kids[m]|
    ensures ChildOk(AddShape(t, n, i, p), m, AddShape(t, n, i, p).kids[m][j])
  {
    hide ShapeOk;
    ShapeParts(t);
    if m == n {
      if j != i { ChildAt(t, n, if j < i then j else j - 1); }
    } else if m != p {
      ChildAt(t, m, j);
    }
  }

  lemma AddedParent(t: Shape, n: Ptr, i: nat, p: Ptr, c: Ptr)
    requires ShapeOk(t) && n in t.kids && i <= |t.kids[n]| && p !in t.kids && c in AddShape(t, n, i, p).par
    ensures var u := AddShape(t, n, i, p); u.par[c] in u.kids && c in u.kids[u.par[c]]
  {
    hide ShapeOk;
    var u := AddShape(t, n, i, p);
    if c == p {
      assert u.kids[n][i] == p;
    } else {
      ParentOk(t, c);
      InParent(t, c);
      if t.par[c] == n {
        var j := IndexOf(t, c);
        assert u.kids[n][if j < i then j else j + 1] == c;
      }
    }
  }

  lemma KidsAreNodes(t: Shape, n: Ptr)
    requires ShapeOk(t) && n in t.kids
    ensures Distinct(t.kids[n]) && forall q :: q in t.kids[n] ==> q in t.kids
  {
    forall q | q in t.kids[n] ensures q in t.kids {
      var j :| 0 <= j < |t.kids[n]| && t.kids[n][j] == q;
      ChildAt(t, n, j);
    }
  }

  lemma NeighboursIn(h: Memory, t: Shape, n: Ptr, i: nat)
    requires HeapOk(h, t) && n in t.kids && i <= |t.kids[n]|
    ensures var (b, a) := Neighbours(t.kids[n], i);
      (b.Some? ==> b.value in h && b != a) && (a.Some? ==> a.value in h)
  {
    hide ShapeOk, Linked, Distinct;
    NodeOf(h, t, n);
    LinkedInHeap(h, h[n].data.children, t.kids[n]);
    if 0 < i < |t.kids[n]| { LinkedDistinct(h, h[n].data.children, t.kids[n], i - 1, i); }
  }

  /** Node by node: what adding changes. */
  lemma AddedAt(h: Memory, t: Shape, n: Ptr, i: nat, p: Ptr, x: Ptr)
    requires HeapOk(h, t) && n in t.kids && i <= |t.kids[n]| && p !in h
    ensures var (b, a) := Neighbours(t.kids[n], i);
      var g := Added(h, n, b, a, p);
      && g.Keys == h.Keys + {p} && g[p] == Node(b, a, NewItem(n))
      && (x in h ==>
            && g[x].next == (if b == Some(x) then Some(p) else h[x].next)
            && g[x].prev == (if a == Some(x) then Some(p) else h[x].prev)
            && g[x].data == (if x == n && b == None then h[x].data.(children := Some(p)) else h[x].data))
  {
    hide ShapeOk, HeapOk, Insert, Neighbours;
    var (b, a) := Neighbours(t.kids[n], i);
    HeapShape(h, t);
    NeighboursIn(h, t, n, i);
    InsertAt(h, b, a, p, NewItem(n), x);
    InsertAt(h, b, a, p, NewItem(n), n);
  }

  lemma AddedNode(h: Memory, t: Shape, n: Ptr, i: nat, p: Ptr, m: Ptr)
    requires HeapOk(h, t) && n in t.kids && i <= |t.kids[n]| && p !in h && m in t.kids
    ensures var (b, a) := Neighbours(t.kids[n], i);
      NodeOk(Added(h, n, b, a, p), AddShape(t, n, i, p), m)
  {
    hide ShapeOk, Added, Insert, Linked, HeapOk, Distinct;
    HeapShape(h, t);
    NodeOf(h, t, m);
    NodeOf(h, t, n);
    var (b, a) := Neighbours(t.kids[n], i);
    var g := Added(h, n, b, a, p);
    AddedAt(h, t, n, i, p, m);
    if m == n {
      AddedList(h, t, n, i, p);
    } else {
      forall j | 0 <= j < |t.kids[m]|
        ensures var q := t.kids[m][j]; q in h && q in g && g[q].prev == h[q].prev && g[q].next == h[q].next
      {
        NextChild(h, t, m, j);
        AddedAt(h, t, n, i, p, t.kids[m][j]);
        if i > 0 { NextChild(h, t, n, i - 1); }
        if i < |t.kids[n]| { NextChild(h, t, n, i); }
      }
      LinkedAgree(h, g, h[m].data.children, t.kids[m]);
    }
  }

  lemma NodeOf(h: Memory, t: Shape, n: Ptr)
    requires HeapOk(h, t) && n in t.kids
    ensures NodeOk(h, t, n)
  {
  }

  lemma AddedList(h: Memory, t: Shape, n: Ptr, i: nat, p: Ptr)
    requires HeapOk(h, t) && n in t.kids && i <= |t.kids[n]| && p !in h
    ensures var (b, a) := Neighbours(t.kids[n], i);
      var g := Added(h, n, b, a, p);
      n in g && Linked(g, g[n].data.children, Inserted(t.kids[n], i, p))
  {
    hide ShapeOk, Linked, HeapOk, Distinct, Inserted;
    NodeOf(h, t, n);
    var (b, a) := Neighbours(t.kids[n], i);
    var k := t.kids[n];
    InsertLinks(h, h[n].data.children, k, i, p, NewItem(n));
    AddedAt(h, t, n, i, p, n);
    var f := Insert(h, b, a, p, NewItem(n));
    var first := if i == 0 then Some(p) else h[n].data.children;
    LinkedInHeap(f, first, Inserted(k, i, p));
    LinkedAgree(f, Added(h, n, b, a, p), first, Inserted(k, i, p));
  }

  /** The tree with the new node in place. */
  lemma AddOk(h: Memory, t: Shape, n: Ptr, i: nat, p: Ptr)
    requires HeapOk(h, t) && n in t.kids && i <= |t.kids[n]| && p !in h
    ensures var (b, a) := Neighbours(t.kids[n], i);
      HeapOk(Added(h, n, b, a, p), AddShape(t, n, i, p))
  {
    hide ShapeOk, Added, Linked, Neighbours, NodeOk;
    var (b, a) := Neighbours(t.kids[n], i);
    var g, u := Added(h, n, b, a, p), AddShape(t, n, i, p);
    HeapShape(h, t);
    AddShapeOk(t, n, i, p);
    AddedAt(h, t, n, i, p, t.root);
    forall m | m in g ensures NodeOk(g, u, m) {
      if m == p { AddedNew(h, t, n, i, p); } else { AddedNode(h, t, n, i, p, m); }
    }
    RootApart(h, t, n, i);
  }

  lemma {:induction false} AddedNew(h: Memory, t: Shape, n: Ptr, i: nat, p: Ptr)
    requires HeapOk(h, t) && n in t.kids && i <= |t.kids[n]| && p !in h
    ensures var (b, a) := Neighbours(t.kids[n], i);
      NodeOk(Added(h, n, b, a, p), AddShape(t, n, i, p), p)
  {
    hide HeapOk, ShapeOk, Added, Neighbours, Inserted;
    HeapShape(h, t);
    AddedAt(h, t, n, i, p, n);
  }

  /** The root has no siblings. */
  lemma RootApart(h: Memory, t: Shape, n: Ptr, i: nat)
    requires HeapOk(h, t) && n in t.kids && i <= |t.kids[n]|
    ensures Neighbours(t.kids[n], i).0 != Some(t.root) && Neighbours(t.kids[n], i).1 != Some(t.root)
  {
    if i > 0 { ChildAt(t, n, i - 1); }
    if i < |t.kids[n]| { ChildAt(t, n, i); }
  }

  /** What GWM_DATA_ADD_TOP_CHILD does as it is written: the old first child keeps its `prev`. */
  function TopChildAsWritten(h: Memory, n: Ptr, p: Ptr): Memory
    requires n in h && p !in h
  {
    var g := h[p := Node(None, h[n].data.children, NewItem(n))];
    g[n := g[n].(data := g[n].data.(children := Some(p)))]
  }

  /** So the tree it leaves is sound exactly if the parent had no children. */
  lemma TopChildLeavesStalePrev(h: Memory, t: Shape, n: Ptr, p: Ptr)
    requires HeapOk(h, t) && n in t.kids && n in h && p !in h
    ensures HeapOk(TopChildAsWritten(h, n, p), AddShape(t, n, 0, p)) <==> t.kids[n] == []
  {
    hide HeapOk, ShapeOk;
    var g, u := TopChildAsWritten(h, n, p), AddShape(t, n, 0, p);
    HeapShape(h, t);
    FirstChild(h, t, n);
    if t.kids[n] == [] {
      AddOk(h, t, n, 0, p);
      assert g == Added(h, n, None, None, p);
    } else {
      StalePrev(h, t, n, p);
    }
  }

  /** For instance where a second node is put before the first one. */
  lemma StalePrevAfterTopChild() returns (h: Memory, t: Shape)
    ensures t == Shape(0, map[0 := [1], 1 := []], map[1 := 0], map[0 := 0, 1 := 1], 2) && HeapOk(h, t) && 2 !in h
    ensures var g := TopChildAsWritten(h, 0, 2); 1 in g && g[2].next == Some(1) && g[1].prev == None
    ensures !HeapOk(TopChildAsWritten(h, 0, 2), AddShape(t, 0, 0, 2))
  {
    t := Shape(0, map[0 := [1], 1 := []], map[1 := 0], map[0 := 0, 1 := 1], 2);
    h := map[
      0 := Node(None, None, Item(Some(1), None, true, false, 0)),
      1 := Node(None, None, Item(None, Some(0), false, false, 0))];
    assert NodeOk(h, t, 0) && NodeOk(h, t, 1) && ChildOk(t, 0, 1);
    TopChildLeavesStalePrev(h, t, 0, 2);
  }

  lemma StalePrev(h: Memory, t: Shape, n: Ptr, p: Ptr)
    requires HeapOk(h, t) && n in t.kids && n in h && p !in h && t.kids[n] != []
    ensures !HeapOk(TopChildAsWritten(h, n, p), AddShape(t, n, 0, p))
  {
    hide HeapOk, ShapeOk;
    var g, u := TopChildAsWritten(h, n, p), AddShape(t, n, 0, p);
    NextChild(h, t, n, 0);
    assert u.kids[n][1] == t.kids[n][0] && u.kids[n][0] == p;
    if HeapOk(g, u) {
      NextChild(g, u, n, 1);
    }
  }

  // ---- Deleting a node ----

  /** x and everything below it. */
  ghost function Sub(t: Shape, x: Ptr): set<Ptr>
    requires ShapeOk(t)
  {
    set n | n in t.kids && Under(t, n, x)
  }

  /** The children of x before the j-th, and everything below them. */
  ghost function SubBefore(t: Shape, x: Ptr, j: nat): set<Ptr>
    requires ShapeOk(t) && x in t.kids && j <= |t.kids[x]|
  {
    if j == 0 then {} else SubBefore(t, x, j - 1) + Sub(t, t.kids[x][j - 1])
  }

  lemma {:induction false} SubBeforeIs(t: Shape, x: Ptr, j: nat, n: Ptr)
    requires ShapeOk(t) && x in t.kids && j <= |t.kids[x]|
    ensures n in SubBefore(t, x, j) <==> n in t.kids && exists k :: 0 <= k < j && Under(t, n, t.kids[x][k])
    decreases j
  {
    if j > 0 { SubBeforeIs(t, x, j - 1, n); }
  }

  /** Below x there is x, and what is below one of its children. */
  lemma {:induction false} UnderSplit(t: Shape, n: Ptr, x: Ptr) returns (k: nat)
    requires ShapeOk(t) && n in t.kids && x in t.kids && Under(t, n, x) && n != x
    ensures k < |t.kids[x]| && Under(t, n, t.kids[x][k])
    decreases t.birth[n]
  {
    ParentOk(t, n);
    if t.par[n] == x {
      k := IndexOf(t, n);
    } else {
      k := UnderSplit(t, t.par[n], x);
    }
  }

  lemma SubIs(t: Shape, x: Ptr)
    requires ShapeOk(t) && x in t.kids
    ensures Sub(t, x) == {x} + SubBefore(t, x, |t.kids[x]|)
    ensures x !in SubBefore(t, x, |t.kids[x]|)
  {
    hide Under;
    forall n ensures n in Sub(t, x) <==> n in {x} + SubBefore(t, x, |t.kids[x]|) {
      SubBeforeIs(t, x, |t.kids[x]|, n);
      if n in Sub(t, x) && n != x {
        var k := UnderSplit(t, n, x);
      }
      if n in SubBefore(t, x, |t.kids[x]|) {
        var k :| 0 <= k < |t.kids[x]| && Under(t, n, t.kids[x][k]);
        UnderChild(t, x, k);
        UnderTransitive(t, n, t.kids[x][k], x);
      }
      UnderItself(t, x);
    }
    NotBelowChildren(t, x, |t.kids[x]|);
  }

  lemma UnderItself(t: Shape, x: Ptr)
    requires ShapeOk(t) && x in t.kids
    ensures Under(t, x, x)
  {
  }

  lemma NotBelowChildren(t: Shape, x: Ptr, j: nat)
    requires ShapeOk(t) && x in t.kids && j <= |t.kids[x]|
    ensures x !in SubBefore(t, x, j)
  {
    hide Under;
    SubBeforeIs(t, x, j, x);
    forall k | 0 <= k < j ensures !Under(t, x, t.kids[x][k]) {
      ChildAt(t, x, k);
      if Under(t, x, t.kids[x][k]) { UnderIsYounger(t, x, t.kids[x][k]); }
    }
  }

  /** What is below one child is not below another. */
  lemma SubsApart(t: Shape, x: Ptr, j: nat, n: Ptr)
    requires ShapeOk(t) && x in t.kids && j < |t.kids[x]| && n in Sub(t, t.kids[x][j])
    ensures n !in SubBefore(t, x, j)
    ensures forall k :: 0 <= k < |t.kids[x]| && k != j ==> n !in Sub(t, t.kids[x][k])
    ensures n in Sub(t, x) && n != x
  {
    hide Under;
    ChildAt(t, x, j);
    forall k | 0 <= k < |t.kids[x]| && k != j ensures n !in Sub(t, t.kids[x][k]) {
      ChildAt(t, x, k);
      SiblingsDiffer(t, x, j, k);
      if n in Sub(t, t.kids[x][k]) {
        UnderOne(t, n, t.kids[x][j], t.kids[x][k]);
      }
    }
    SubBeforeIs(t, x, j, n);
    UnderChild(t, x, j);
    UnderTransitive(t, n, t.kids[x][j], x);
    NotBelowChildren(t, x, |t.kids[x]|);
    SubBeforeIs(t, x, |t.kids[x]|, n);
  }

  lemma SiblingsDiffer(t: Shape, x: Ptr, j: nat, k: nat)
    requires ShapeOk(t) && x in t.kids && j < |t.kids[x]| && k < |t.kids[x]| && j != k
    ensures t.kids[x][j] != t.kids[x][k]
  {
    assert Distinct(t.kids[x]);
  }

  /** The pointer assignments that take x out of its list of siblings. */
  function TakenOut(h: Memory, x: Ptr): Memory
    requires x in h
  {
    var e := h[x];
    var g :=
      if e.prev == None then
        if e.data.parent.Some? && e.data.parent.value in h then
          h[e.data.parent.value := h[e.data.parent.value].(data := h[e.data.parent.value].data.(children := e.next))]
        else h
      else if e.prev.value in h then h[e.prev.value := h[e.prev.value].(next := e.next)]
      else h;
    if e.next.Some? && e.next.value in g then g[e.next.value := g[e.next.value].(prev := e.prev)] else g
  }

  ghost predicate OutsideOk(h: Memory, t: Shape, x: Ptr, p: Option<Ptr>)
    requires ShapeOk(t)
  {
    p.Some? ==> p.value in h && p.value !in Sub(t, x)
  }

  /** Everything below x is linked as the shape says; x itself may hang anywhere outside. */
  ghost predicate SubOk(h: Memory, t: Shape, x: Ptr) {
    && ShapeOk(t) && x in t.kids && x in h
    && (forall n :: n in Sub(t, x) ==> n in h && Linked(h, h[n].data.children, t.kids[n]))
    && (forall n :: n in Sub(t, x) && n != x ==> n in t.par && h[n].data.parent == Some(t.par[n]))
    && OutsideOk(h, t, x, h[x].prev) && OutsideOk(h, t, x, h[x].next) && OutsideOk(h, t, x, h[x].data.parent)
    && (h[x].prev.Some? ==> h[x].prev != h[x].next)
    && (h[x].data.parent.Some? ==> h[x].data.parent != h[x].next)
  }

  /** The memory once x and everything below it are gone. */
  ghost function Deleted(h: Memory, t: Shape, x: Ptr): Memory
    requires ShapeOk(t) && x in h
  {
    TakenOut(h, x) - Sub(t, x)
  }

  /**
   Where the loop over the children of x stands: those before the j-th are gone,
   the j-th is first, the rest are as they were but for their parent.
   */
  ghost predicate DeletedUpTo(h: Memory, g: Memory, t: Shape, x: Ptr, j: nat)
    requires SubOk(h, t, x) && j <= |t.kids[x]|
  {
    && g.Keys == h.Keys - SubBefore(t, x, j)
    && x in g && g[x].data.children == ChildPtr(t.kids[x], j)
    && (forall n :: n in g && n !in Sub(t, x) ==> g[n] == TakenOut(h, x)[n])
    && (forall n :: n in g && n in Sub(t, x) && n != x ==>
          g[n] == h[n].(
            prev := if j < |t.kids[x]| && n == t.kids[x][j] then None else h[n].prev,
            data := if n in t.par && t.par[n] == x then h[n].data.(parent := None) else h[n].data))
  }

  /** Nodes below x other than the neighbours of x are not touched. */
  lemma TakenOutAt(h: Memory, t: Shape, x: Ptr, n: Ptr)
    requires SubOk(h, t, x) && n in h
    ensures TakenOut(h, x).Keys == h.Keys
    ensures n in Sub(t, x) ==> TakenOut(h, x)[n] == h[n]
    ensures x in Sub(t, x)
  {
    hide ShapeOk, Under, Linked;
    UnderItself(t, x);
  }

  lemma KidIsBelow(t: Shape, n: Ptr, i: nat, x: Ptr)
    requires ShapeOk(t) && x in t.kids && n in Sub(t, x) && i < |t.kids[n]|
    ensures t.kids[n][i] in Sub(t, x) && t.kids[n][i] in t.par && t.par[t.kids[n][i]] == n && t.kids[n][i] != x
  {
    hide Under;
    ChildAt(t, n, i);
    UnderChild(t, n, i);
    UnderTransitive(t, t.kids[n][i], n, x);
    UnderIsYounger(t, n, x);
  }

  /** The children of x have lost their parent, those before the j-th. */
  ghost predicate OrphanedUpTo(h: Memory, g: Memory, t: Shape, x: Ptr, j: nat)
    requires ShapeOk(t) && x in t.kids
  {
    && g.Keys == h.Keys
    && forall n :: n in h ==>
         g[n] ==
           if n in t.par && t.par[n] == x && IndexOf(t, n) < j then h[n].(data := h[n].data.(parent := None))
           else h[n]
  }

  lemma OrphanedNone(h: Memory, t: Shape, x: Ptr)
    requires ShapeOk(t) && x in t.kids
    ensures OrphanedUpTo(h, h, t, x, 0)
  {
  }

  lemma OrphanOne(h: Memory, g: Memory, t: Shape, x: Ptr, j: nat)
    requires ShapeOk(t) && x in t.kids && j < |t.kids[x]| && OrphanedUpTo(h, g, t, x, j) && t.kids[x][j] in g
    ensures var c := t.kids[x][j]; OrphanedUpTo(h, g[c := g[c].(data := g[c].data.(parent := None))], t, x, j + 1)
  {
    hide ShapeOk;
    var c := t.kids[x][j];
    IndexIs(t, x, j);
    forall n | n in t.par && t.par[n] == x && IndexOf(t, n) == j ensures n == c {
    }
  }

  /** The child at j and the pointer to the one after it, in a memory where x has been taken out. */
  lemma OrphanLinks(h: Memory, g: Memory, t: Shape, x: Ptr, m: nat, j: nat)
    requires SubOk(h, t, x) && OrphanedUpTo(TakenOut(h, x), g, t, x, m) && j <= |t.kids[x]|
    ensures x in g && g[x].data.children == ChildPtr(t.kids[x], 0)
    ensures j < |t.kids[x]| ==> t.kids[x][j] in g && g[t.kids[x][j]].next == ChildPtr(t.kids[x], j + 1)
  {
    hide ShapeOk, Under, TakenOut;
    TakenOutAt(h, t, x, x);
    XIsNotItsChild(t, x);
    if j < |t.kids[x]| {
      KidIsBelow(t, x, j, x);
      TakenOutAt(h, t, x, t.kids[x][j]);
    }
  }

  lemma XIsNotItsChild(t: Shape, x: Ptr)
    requires ShapeOk(t) && x in t.kids
    ensures x in t.par ==> t.par[x] != x
  {
    if x in t.par { ParentOk(t, x); }
  }

  /** Once all children are orphans, none has been deleted yet. */
  lemma AllOrphans(h: Memory, g: Memory, t: Shape, x: Ptr)
    requires SubOk(h, t, x) && OrphanedUpTo(TakenOut(h, x), g, t, x, |t.kids[x]|)
    ensures DeletedUpTo(h, g, t, x, 0)
  {
    hide ShapeOk, Under, TakenOut, Linked;
    OrphanLinks(h, g, t, x, |t.kids[x]|, 0);
    TakenOutAt(h, t, x, x);
    forall n | n in g && n in Sub(t, x) && n != x
      ensures g[n] == h[n].(
        prev := if 0 < |t.kids[x]| && n == t.kids[x][0] then None else h[n].prev,
        data := if n in t.par && t.par[n] == x then h[n].data.(parent := None) else h[n].data)
    {
      TakenOutAt(h, t, x, n);
      if 0 < |t.kids[x]| && n == t.kids[x][0] { FirstHasNoPrev(h, t, x); }
    }
    forall n | n in g && n !in Sub(t, x) ensures g[n] == TakenOut(h, x)[n] {
      if n in t.par && t.par[n] == x {
        KidIsBelow(t, x, IndexOf(t, n), x);
      }
    }
  }

  lemma FirstHasNoPrev(h: Memory, t: Shape, x: Ptr)
    requires SubOk(h, t, x) && |t.kids[x]| > 0
    ensures t.kids[x][0] in h && h[t.kids[x][0]].prev == None
  {
    hide Under;
    UnderItself(t, x);
  }

  lemma ChildNext(h: Memory, t: Shape, x: Ptr, j: nat)
    requires SubOk(h, t, x) && j < |t.kids[x]|
    ensures t.kids[x][j] in h && h[t.kids[x][j]].next == ChildPtr(t.kids[x], j + 1)
  {
    hide Under;
    UnderItself(t, x);
  }

  /** The j-th child with the head of the list moved past it: its subtree can be deleted. */
  lemma ChildCanGo(h: Memory, g: Memory, t: Shape, x: Ptr, j: nat)
    requires SubOk(h, t, x) && j < |t.kids[x]| && DeletedUpTo(h, g, t, x, j)
    ensures var c := t.kids[x][j];
      && c in g && g[c].next == ChildPtr(t.kids[x], j + 1) && c != x
      && var f := g[x := g[x].(data := g[x].data.(children := ChildPtr(t.kids[x], j + 1)))];
      && SubOk(f, t, c) && f[c].prev == None && f[c].data.parent == None && f[c].next == ChildPtr(t.kids[x], j + 1)
  {
    hide ShapeOk, Under, TakenOut, Linked;
    var c := t.kids[x][j];
    var f := g[x := g[x].(data := g[x].data.(children := ChildPtr(t.kids[x], j + 1)))];
    UnderItself(t, x);
    KidIsBelow(t, x, j, x);
    ChildNext(h, t, x, j);
    UnderItself(t, c);
    ParentOk(t, c);
    SubsApart(t, x, j, c);
    forall n | n in Sub(t, c) ensures n in f && Linked(f, f[n].data.children, t.kids[n]) {
      BelowChildLinked(h, g, t, x, j, n);
    }
    forall n | n in Sub(t, c) && n != c ensures n in t.par && f[n].data.parent == Some(t.par[n]) {
      SubsApart(t, x, j, n);
      BelowIsNoSibling(t, x, j, n);
    }
    if j + 1 < |t.kids[x]| {
      var d := t.kids[x][j + 1];
      KidIsBelow(t, x, j + 1, x);
      ParentOk(t, d);
      UnderItself(t, d);
      SubsApart(t, x, j + 1, d);
    }
  }

  lemma BelowIsNoSibling(t: Shape, x: Ptr, j: nat, n: Ptr)
    requires ShapeOk(t) && x in t.kids && j < |t.kids[x]| && n in Sub(t, t.kids[x][j]) && n != t.kids[x][j]
    ensures n in t.par && t.par[n] != x
  {
    hide Under;
    ChildAt(t, x, j);
    NotItself(t, n, t.kids[x][j]);
    ParentOk(t, n);
    UnderItself(t, n);
    if t.par[n] == x { UnderOne(t, n, n, t.kids[x][j]); }
  }

  lemma NotItself(t: Shape, n: Ptr, c: Ptr)
    requires ShapeOk(t) && n in Sub(t, c) && n != c
    ensures n in t.par
  {
  }

  lemma BelowChildLinked(h: Memory, g: Memory, t: Shape, x: Ptr, j: nat, n: Ptr)
    requires SubOk(h, t, x) && j < |t.kids[x]| && DeletedUpTo(h, g, t, x, j) && n in Sub(t, t.kids[x][j])
    ensures n in g && n != x && Linked(g, g[n].data.children, t.kids[n])
    ensures var f := g[x := g[x].(data := g[x].data.(children := ChildPtr(t.kids[x], j + 1)))];
      Linked(f, f[n].data.children, t.kids[n])
  {
    hide ShapeOk, Under, TakenOut, Linked;
    var c := t.kids[x][j];
    ChildAt(t, x, j);
    SubsApart(t, x, j, n);
    var f := g[x := g[x].(data := g[x].data.(children := ChildPtr(t.kids[x], j + 1)))];
    forall i | 0 <= i < |t.kids[n]|
      ensures var q := t.kids[n][i];
        q in h && q in g && q in f && g[q].prev == h[q].prev && g[q].next == h[q].next
        && f[q].prev == h[q].prev && f[q].next == h[q].next
    {
      KidIsBelow(t, n, i, c);
      SubsApart(t, x, j, t.kids[n][i]);
    }
    LinkedAgree(h, g, h[n].data.children, t.kids[n]);
    LinkedAgree(h, f, h[n].data.children, t.kids[n]);
  }

  /** What deleting the j-th child, first in its list and without a parent, changes. */
  lemma ChildGone(h: Memory, g: Memory, t: Shape, x: Ptr, j: nat, n: Ptr)
    requires SubOk(h, t, x) && j < |t.kids[x]| && DeletedUpTo(h, g, t, x, j) && t.kids[x][j] in g && n in g
    ensures var f := g[x := g[x].(data := g[x].data.(children := ChildPtr(t.kids[x], j + 1)))];
      var e := Deleted(f, t, t.kids[x][j]);
      && e.Keys == g.Keys - Sub(t, t.kids[x][j])
      && (n in e ==> e[n] == if j + 1 < |t.kids[x]| && n == t.kids[x][j + 1] then f[n].(prev := None) else f[n])
  {
    hide ShapeOk, Under, Linked, SubOk;
    SubNodes(h, t, x);
    ChildCanGo(h, g, t, x, j);
    var c := t.kids[x][j];
    var f := g[x := g[x].(data := g[x].data.(children := ChildPtr(t.kids[x], j + 1)))];
    NextIsThere(f, t, c);
    assert TakenOut(f, c).Keys == g.Keys;
    assert (TakenOut(f, c) - Sub(t, c)).Keys == g.Keys - Sub(t, c);
  }

  lemma NextIsThere(f: Memory, t: Shape, c: Ptr)
    requires SubOk(f, t, c)
    ensures ShapeOk(t) && c in f && (f[c].next.Some? ==> f[c].next.value in f)
  {
  }

  lemma DeleteStep(h: Memory, g: Memory, t: Shape, x: Ptr, j: nat)
    requires SubOk(h, t, x) && j < |t.kids[x]| && DeletedUpTo(h, g, t, x, j) && t.kids[x][j] in g
    ensures var f := g[x := g[x].(data := g[x].data.(children := ChildPtr(t.kids[x], j + 1)))];
      DeletedUpTo(h, Deleted(f, t, t.kids[x][j]), t, x, j + 1)
  {
    hide ShapeOk, Under, Linked, TakenOut, Deleted, SubOk;
    SubNodes(h, t, x);
    TakenOutAt(h, t, x, x);
    var c := t.kids[x][j];
    var f := g[x := g[x].(data := g[x].data.(children := ChildPtr(t.kids[x], j + 1)))];
    var e := Deleted(f, t, c);
    ChildGone(h, g, t, x, j, x);
    XNotBelow(t, x, j);
    assert e.Keys == h.Keys - SubBefore(t, x, j + 1);
    XNotNext(t, x, j);
    forall n | n in e && n !in Sub(t, x) ensures e[n] == TakenOut(h, x)[n] {
      ChildGone(h, g, t, x, j, n);
      if j + 1 < |t.kids[x]| { KidIsBelow(t, x, j + 1, x); }
    }
    forall n | n in e && n in Sub(t, x) && n != x
      ensures e[n] == h[n].(
        prev := if j + 1 < |t.kids[x]| && n == t.kids[x][j + 1] then None else h[n].prev,
        data := if n in t.par && t.par[n] == x then h[n].data.(parent := None) else h[n].data)
    {
      ChildGone(h, g, t, x, j, n);
      ChildAt(t, x, j);
      UnderItself(t, c);
    }
  }

  lemma SubNodes(h: Memory, t: Shape, x: Ptr)
    requires SubOk(h, t, x)
    ensures ShapeOk(t) && x in t.kids && x in h && x in Sub(t, x) && forall n :: n in Sub(t, x) ==> n in h
  {
    hide Under;
    UnderItself(t, x);
  }

  lemma XNotBelow(t: Shape, x: Ptr, j: nat)
    requires ShapeOk(t) && x in t.kids && j < |t.kids[x]|
    ensures x !in Sub(t, t.kids[x][j])
  {
    hide Under;
    if x in Sub(t, t.kids[x][j]) { SubsApart(t, x, j, x); }
  }

  lemma XNotNext(t: Shape, x: Ptr, j: nat)
    requires ShapeOk(t) && x in t.kids && j < |t.kids[x]|
    ensures j + 1 < |t.kids[x]| ==> t.kids[x][j + 1] != x
  {
    if j + 1 < |t.kids[x]| { ChildAt(t, x, j + 1); }
  }

  lemma DeleteDone(h: Memory, g: Memory, t: Shape, x: Ptr)
    requires SubOk(h, t, x) && DeletedUpTo(h, g, t, x, |t.kids[x]|)
    ensures g - {x} == Deleted(h, t, x)
  {
    hide ShapeOk, Under, Linked, TakenOut, SubOk;
    SubNodes(h, t, x);
    SubIs(t, x);
    TakenOutAt(h, t, x, x);
    var d := Deleted(h, t, x);
    assert (g - {x}).Keys == d.Keys;
    forall n | n in d ensures (g - {x})[n] == d[n] {
    }
  }

  // ---- The tree without the deleted nodes ----

  ghost function PruneShape(t: Shape, x: Ptr): Shape
    requires ShapeOk(t) && x in t.par
  {
    var s := Sub(t, x);
    t.(kids := map n | n in t.kids && n !in s :: if n == t.par[x] then Without(t.kids[n], IndexOf(t, x)) else t.kids[n],
       par := map n | n in t.par && n !in s :: t.par[n],
       birth := map n | n in t.birth && n !in s :: t.birth[n])
  }

  /** A node that stays keeps its parent, and of the children of a node that stays only x goes. */
  lemma StaysAbove(t: Shape, x: Ptr, n: Ptr)
    requires ShapeOk(t) && x in t.par && n in t.kids && n !in Sub(t, x)
    ensures n in t.par ==> t.par[n] in t.kids && t.par[n] !in Sub(t, x)
    ensures forall i :: 0 <= i < |t.kids[n]| && t.kids[n][i] in Sub(t, x) ==> t.kids[n][i] == x && t.par[x] == n
  {
    hide Under;
    if n in t.par {
      ParentOk(t, n);
      if t.par[n] in Sub(t, x) { KidIsBelow(t, t.par[n], IndexOf(t, n), x); }
    }
    forall i | 0 <= i < |t.kids[n]| && t.kids[n][i] in Sub(t, x) ensures t.kids[n][i] == x && t.par[x] == n {
      var q := t.kids[n][i];
      ChildAt(t, n, i);
      if q != x { UnderParent(t, q, x); }
    }
  }

  lemma UnderParent(t: Shape, q: Ptr, x: Ptr)
    requires ShapeOk(t) && q in t.kids && Under(t, q, x) && q != x
    ensures q in t.par && t.par[q] in Sub(t, x)
  {
    ParentOk(t, q);
  }

  lemma RootStays(t: Shape, x: Ptr)
    requires ShapeOk(t) && x in t.par
    ensures t.root !in Sub(t, x) && x in Sub(t, x) && t.par[x] in t.kids && t.par[x] !in Sub(t, x)
  {
    hide Under;
    ParentOk(t, x);
    UnderItself(t, x);
    RootUnderItself(t, x);
    if t.par[x] in Sub(t, x) { UnderIsYounger(t, t.par[x], x); }
  }

  lemma RootUnderItself(t: Shape, x: Ptr)
    requires ShapeOk(t) && x in t.par
    ensures t.root !in Sub(t, x)
  {
  }

  lemma PruneShapeOk(t: Shape, x: Ptr)
    requires ShapeOk(t) && x in t.par
    ensures ShapeOk(PruneShape(t, x))
  {
    hide Under, Without, Sub, Distinct, ChildOk;
    var u := PruneShape(t, x);
    RootStays(t, x);
    ShapeParts(t);
    forall n | n in u.kids ensures Distinct(u.kids[n]) {
      KidsAreNodes(t, n);
      if n == t.par[x] { WithoutDistinct(t.kids[n], IndexOf(t, x)); }
    }
    forall n, i | n in u.kids && 0 <= i < |u.kids[n]| ensures ChildOk(u, n, u.kids[n][i]) {
      PrunedChild(t, x, n, i);
    }
    forall c | c in u.par ensures u.par[c] in u.kids && c in u.kids[u.par[c]] {
      PrunedParent(t, x, c);
    }
  }

  lemma ShapeParts(t: Shape)
    requires ShapeOk(t)
    ensures t.root in t.kids && t.root !in t.par && t.birth.Keys == t.kids.Keys && t.par.Keys == t.kids.Keys - {t.root}
    ensures forall n :: n in t.kids ==> t.birth[n] < t.next
  {
  }

  lemma PrunedChild(t: Shape, x: Ptr, n: Ptr, i: nat)
    requires ShapeOk(t) && x in t.par && n in PruneShape(t, x).kids && i < |PruneShape(t, x).kids[n]|
    ensures ChildOk(PruneShape(t, x), n, PruneShape(t, x).kids[n][i])
  {
    hide Under, ShapeOk, Sub, Distinct;
    var u := PruneShape(t, x);
    var p, k := t.par[x], IndexOf(t, x);
    RootStays(t, x);
    StaysAbove(t, x, n);
    var j := if n == p && i >= k then i + 1 else i;
    assert u.kids[n][i] == t.kids[n][j];
    ChildAt(t, n, j);
    if n == p { SiblingsDiffer(t, p, j, k); }
  }

  lemma PrunedParent(t: Shape, x: Ptr, c: Ptr)
    requires ShapeOk(t) && x in t.par && c in PruneShape(t, x).par
    ensures var u := PruneShape(t, x); u.par[c] in u.kids && c in u.kids[u.par[c]]
  {
    hide Under, ShapeOk, Sub, Without;
    var p := t.par[x];
    RootStays(t, x);
    ParentOk(t, c);
    StaysAbove(t, x, c);
    InParent(t, c);
    if t.par[c] == p {
      KidsAreNodes(t, p);
      WithoutMembers(t.kids[p], IndexOf(t, x));
    }
  }

  lemma InParent(t: Shape, c: Ptr)
    requires ShapeOk(t) && c in t.par
    ensures t.par[c] in t.kids && c in t.kids[t.par[c]]
  {
  }

  lemma WithoutDistinct(s: seq<Ptr>, k: nat)
    requires Distinct(s) && k < |s|
    ensures Distinct(Without(s, k))
  {
  }

  lemma SubFromTree(h: Memory, t: Shape, x: Ptr)
    requires HeapOk(h, t) && x in t.par
    ensures SubOk(h, t, x)
  {
    hide Under, Linked;
    RootStays(t, x);
    ParentOk(t, x);
    var p, k := t.par[x], IndexOf(t, x);
    NextChild(h, t, p, k);
    if k > 0 { NeighbourStays(h, t, x, k - 1); }
    if k + 1 < |t.kids[p]| { NeighbourStays(h, t, x, k + 1); }
    if 0 < k && k + 1 < |t.kids[p]| { SiblingsDiffer(t, p, k - 1, k + 1); }
    forall n | n in Sub(t, x)
      ensures n in h && Linked(h, h[n].data.children, t.kids[n])
      ensures n != x ==> n in t.par && h[n].data.parent == Some(t.par[n])
    {
      assert NodeOk(h, t, n);
      if n != x { NotItself(t, n, x); }
    }
  }

  lemma NeighbourStays(h: Memory, t: Shape, x: Ptr, i: nat)
    requires HeapOk(h, t) && x in t.par && t.par[x] in t.kids && i < |t.kids[t.par[x]]| && i != IndexOf(t, x)
    ensures var q := t.kids[t.par[x]][i]; q in h && q !in Sub(t, x) && q != t.par[x]
  {
    hide Under, Linked;
    var p := t.par[x];
    RootStays(t, x);
    NextChild(h, t, p, i);
    StaysAbove(t, x, p);
    SiblingsDiffer(t, p, i, IndexOf(t, x));
  }

  /** Taking x out of its list of siblings: the links are those of Unlink, and the list may start later. */
  lemma TakenOutLinks(h: Memory, t: Shape, x: Ptr, n: Ptr)
    requires HeapOk(h, t) && x in t.par && x in h && n in h
    ensures var g := TakenOut(h, x); var u := Unlink(h, x);
      && g.Keys == u.Keys == h.Keys
      && g[n].prev == u[n].prev && g[n].next == u[n].next
      && g[n].data == (if n == t.par[x] && h[x].prev == None then h[n].data.(children := h[x].next) else h[n].data)
  {
    hide HeapOk, ShapeOk;
    HeapShape(h, t);
    ParentOk(t, x);
    var p, k := t.par[x], IndexOf(t, x);
    NextChild(h, t, p, k);
    if k > 0 { NextChild(h, t, p, k - 1); }
    if k + 1 < |t.kids[p]| { NextChild(h, t, p, k + 1); }
    if 0 < k && k + 1 < |t.kids[p]| { SiblingsDiffer(t, p, k - 1, k + 1); }
    UnlinkAt(h, x, n);
  }

  lemma PrunedNode(h: Memory, t: Shape, x: Ptr, n: Ptr)
    requires HeapOk(h, t) && x in t.par && x in h && n in t.kids && n !in Sub(t, x)
    ensures NodeOk(Deleted(h, t, x), PruneShape(t, x), n)
  {
    hide HeapOk, ShapeOk, TakenOut, Linked, Under, Unlink, Without, Sub;
    HeapShape(h, t);
    NodeOf(h, t, n);
    RootStays(t, x);
    StaysAbove(t, x, n);
    TakenOutLinks(h, t, x, n);
    var g := Deleted(h, t, x);
    if n == t.par[x] {
      PrunedList(h, t, x);
    } else {
      forall i | 0 <= i < |t.kids[n]|
        ensures var q := t.kids[n][i]; q in h && q in g && g[q].prev == h[q].prev && g[q].next == h[q].next
      {
        NextChild(h, t, n, i);
        TakenOutLinks(h, t, x, t.kids[n][i]);
        UnlinkElsewhere(h, t, x, t.kids[n][i]);
      }
      LinkedAgree(h, g, h[n].data.children, t.kids[n]);
    }
  }

  /** Only siblings of x are linked anew. */
  lemma UnlinkElsewhere(h: Memory, t: Shape, x: Ptr, q: Ptr)
    requires HeapOk(h, t) && x in t.par && x in h && q in t.par && q in h && t.par[q] != t.par[x]
    ensures Unlink(h, x).Keys == h.Keys && Unlink(h, x)[q].prev == h[q].prev && Unlink(h, x)[q].next == h[q].next
  {
    hide HeapOk, ShapeOk;
    HeapShape(h, t);
    ParentOk(t, x);
    var p, k := t.par[x], IndexOf(t, x);
    NextChild(h, t, p, k);
    if k > 0 { NextChild(h, t, p, k - 1); }
    if k + 1 < |t.kids[p]| { NextChild(h, t, p, k + 1); }
    if 0 < k && k + 1 < |t.kids[p]| { SiblingsDiffer(t, p, k - 1, k + 1); }
    UnlinkAt(h, x, q);
  }

  lemma PrunedList(h: Memory, t: Shape, x: Ptr)
    requires HeapOk(h, t) && x in t.par && x in h && ShapeOk(t) && t.par[x] in t.kids
    requires t.par[x] in h && t.par[x] !in Sub(t, x)
    ensures var p, g := t.par[x], Deleted(h, t, x);
      p in g && Linked(g, g[p].data.children, Without(t.kids[p], IndexOf(t, x)))
  {
    hide HeapOk, ShapeOk, TakenOut, Linked, Under, Unlink, Without, Sub;
    var p, k := t.par[x], IndexOf(t, x);
    var s := t.kids[p];
    var g, u := Deleted(h, t, x), Unlink(h, x);
    NodeOf(h, t, p);
    FirstChild(h, t, p);
    NextChild(h, t, p, k);
    UnlinkLinks(h, h[p].data.children, s, k);
    TakenOutLinks(h, t, x, p);
    forall i | 0 <= i < |s| - 1
      ensures var q := Without(s, k)[i]; q in u && q in g && g[q].prev == u[q].prev && g[q].next == u[q].next
    {
      var j := if i < k then i else i + 1;
      NeighbourStays(h, t, x, j);
      TakenOutLinks(h, t, x, s[j]);
    }
    LinkedAgree(u, g, if k == 0 then NextOf(s, 0) else h[p].data.children, Without(s, k));
  }

  /** Deleting a node leaves a sound tree without it and what was below it. */
  lemma PruneOk(h: Memory, t: Shape, x: Ptr)
    requires HeapOk(h, t) && x in t.par && x in h
    ensures ShapeOk(t) && HeapOk(Deleted(h, t, x), PruneShape(t, x))
  {
    hide ShapeOk, TakenOut, Linked, Under, Unlink, NodeOk, Sub;
    HeapShape(h, t);
    RootStays(t, x);
    PruneShapeOk(t, x);
    TakenOutLinks(h, t, x, t.root);
    var g := Deleted(h, t, x);
    assert g.Keys == PruneShape(t, x).kids.Keys;
    forall n | n in g ensures NodeOk(g, PruneShape(t, x), n) {
      PrunedNode(h, t, x, n);
    }
    RootUntouched(h, t, x);
  }

  lemma RootUntouched(h: Memory, t: Shape, x: Ptr)
    requires HeapOk(h, t) && x in t.par && x in h
    ensures t.root in h && Unlink(h, x).Keys == h.Keys
    ensures Unlink(h, x)[t.root].prev == None && Unlink(h, x)[t.root].next == None
  {
    hide ShapeOk, Linked, NodeOk;
    HeapShape(h, t);
    ParentOk(t, x);
    ShapeParts(t);
    var p, k := t.par[x], IndexOf(t, x);
    NextChild(h, t, p, k);
    if k > 0 { NextChild(h, t, p, k - 1); }
    if k + 1 < |t.kids[p]| { NextChild(h, t, p, k + 1); }
    if 0 < k && k + 1 < |t.kids[p]| { SiblingsDiffer(t, p, k - 1, k + 1); }
    UnlinkAt(h, x, t.root);
  }

  /** Deleting a node that has just been added gives back the tree there was. */
  lemma AddThenDelete(t: Shape, n: Ptr, i: nat, p: Ptr)
    requires ShapeOk(t) && n in t.kids && i <= |t.kids[n]| && p !in t.kids
    ensures var u := AddShape(t, n, i, p);
      && ShapeOk(u) && p in u.par
      && PruneShape(u, p) == t.(next := t.next + 1)
  {
    hide ShapeOk, Under;
    var u := AddShape(t, n, i, p);
    AddShapeOk(t, n, i, p);
    ShapeParts(t);
    OnlyItself(u, p);
    assert u.kids[n][i] == p;
    IndexIs(u, n, i);
    assert Without(u.kids[n], i) == t.kids[n];
    var v := PruneShape(u, p);
    assert v.kids == t.kids;
    assert v.par == t.par;
    assert v.birth == t.birth;
  }

  lemma OnlyItself(t: Shape, p: Ptr)
    requires ShapeOk(t) && p in t.kids && t.kids[p] == []
    ensures Sub(t, p) == {p}
  {
    SubIs(t, p);
  }
}
