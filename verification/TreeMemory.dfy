/**
 The nodes of a data control (libgwm/datactrl.c:96-135) in memory, and what their
 pointers say about the shape of the tree.
 */
module TreeMemory {
  import opened LinkedLists
  import opened TreeRows

  datatype Item = Item(
    children: Option<Ptr>, parent: Option<Ptr>, expanded: bool, selected: bool, lastDrawY: int)

  type Memory = Heap<Item>

  ghost predicate NodeOk(h: Memory, t: Shape, n: Ptr) {
    && n in h && n in t.kids && Linked(h, h[n].data.children, t.kids[n])
    && h[n].data.parent == (if n in t.par then Some(t.par[n]) else None)
  }

  /** The pointers of every node say what the shape says. */
  ghost predicate HeapOk(h: Memory, t: Shape) {
    && ShapeOk(t) && h.Keys == t.kids.Keys
    && (forall n :: n in h ==> NodeOk(h, t, n))
    && h[t.root].prev == None && h[t.root].next == None
  }

  ghost function OpenOf(h: Memory): set<Ptr> {
    set n | n in h && h[n].data.expanded
  }

  /** The rows of a control, as its memory stands. */
  ghost function RowsOf(h: Memory, t: Shape, n: Ptr, i: nat): seq<Ptr>
    requires ShapeOk(t) && n in t.kids && i <= |t.kids[n]|
  {
    Rows(t, OpenOf(h), n, i)
  }

  /** The node a loop over the children of n has come to. */
  function ChildPtr(s: seq<Ptr>, i: nat): Option<Ptr> {
    if i < |s| then Some(s[i]) else None
  }

  lemma FirstChild(h: Memory, t: Shape, n: Ptr)
    requires HeapOk(h, t) && n in h
    ensures n in t.kids && h[n].data.children == ChildPtr(t.kids[n], 0)
  {
    assert NodeOk(h, t, n);
  }

  lemma NextChild(h: Memory, t: Shape, n: Ptr, i: nat)
    requires HeapOk(h, t) && n in t.kids && i < |t.kids[n]|
    ensures n in h && t.kids[n][i] in h && t.kids[n][i] in t.par && t.par[t.kids[n][i]] == n
    ensures h[t.kids[n][i]].next == ChildPtr(t.kids[n], i + 1)
    ensures h[t.kids[n][i]].prev == PrevOf(t.kids[n], i)
    ensures h[t.kids[n][i]].data.parent == Some(n)
    ensures t.birth[n] < t.birth[t.kids[n][i]] < t.next
  {
    ChildAt(t, n, i);
    assert NodeOk(h, t, n) && NodeOk(h, t, t.kids[n][i]);
  }

  // ---- Writing to fields that are not links ----

  ghost predicate LinksKept(a: Node<Item>, b: Node<Item>) {
    a.prev == b.prev && a.next == b.next && a.data.children == b.data.children && a.data.parent == b.data.parent
  }

  lemma LinksKeep(h: Memory, g: Memory, t: Shape)
    requires HeapOk(h, t) && h.Keys == g.Keys && forall n :: n in h ==> LinksKept(h[n], g[n])
    ensures HeapOk(g, t)
  {
    forall n | n in g ensures NodeOk(g, t, n) {
      assert NodeOk(h, t, n) && LinksKept(h[n], g[n]);
      forall i | 0 <= i < |t.kids[n]|
        ensures t.kids[n][i] in g && g[t.kids[n][i]].prev == h[t.kids[n][i]].prev
                && g[t.kids[n][i]].next == h[t.kids[n][i]].next
      {
        NextChild(h, t, n, i);
        assert LinksKept(h[t.kids[n][i]], g[t.kids[n][i]]);
      }
      LinkedAgree(h, g, h[n].data.children, t.kids[n]);
    }
    assert LinksKept(h[t.root], g[t.root]);
  }

  ghost predicate SameLinks(a: Node<Item>, b: Node<Item>) {
    LinksKept(a, b) && a.data.expanded == b.data.expanded
  }

  /** Only fields that neither link nor expand have changed. */
  ghost predicate SameTree(h: Memory, g: Memory) {
    && h.Keys == g.Keys
    && forall n :: n in h ==> SameLinks(h[n], g[n])
  }

  lemma SameTreeKeeps(h: Memory, g: Memory, t: Shape)
    requires HeapOk(h, t) && SameTree(h, g)
    ensures HeapOk(g, t) && OpenOf(g) == OpenOf(h)
  {
    forall n | n in h ensures LinksKept(h[n], g[n]) {
      assert SameLinks(h[n], g[n]);
    }
    LinksKeep(h, g, t);
    forall n ensures n in OpenOf(g) <==> n in OpenOf(h) {
      if n in h { assert SameLinks(h[n], g[n]); }
    }
  }

  // ---- Expanding and collapsing ----

  function Toggled(h: Memory, x: Ptr): Memory
    requires x in h
  {
    h[x := h[x].(data := h[x].data.(expanded := !h[x].data.expanded))]
  }

  lemma ToggleKeeps(h: Memory, t: Shape, x: Ptr)
    requires HeapOk(h, t) && x in h
    ensures HeapOk(Toggled(h, x), t)
    ensures OpenOf(Toggled(h, x)) == if h[x].data.expanded then OpenOf(h) - {x} else OpenOf(h) + {x}
    ensures Toggled(Toggled(h, x), x) == h
  {
    hide HeapOk, OpenOf;
    LinksKeep(h, Toggled(h, x), t);
    ToggleOpens(h, x);
  }

  lemma ToggleOpens(h: Memory, x: Ptr)
    requires x in h
    ensures OpenOf(Toggled(h, x)) == if h[x].data.expanded then OpenOf(h) - {x} else OpenOf(h) + {x}
  {
  }

  /**
   Expanding a node that has a row puts the rows of what it holds directly behind that
   row, and leaves all others as they are; expanding one that has none shows nothing.
   So collapsing it takes these rows away again.
   */
  lemma ToggleShowsRows(h: Memory, t: Shape, x: Ptr) returns (k: nat)
    requires HeapOk(h, t) && x in h && x in t.kids && !h[x].data.expanded
    ensures
      var g := Toggled(h, x);
      var r := RowsOf(h, t, t.root, 0);
      && HeapOk(g, t)
      && if x in r then
           k < |r| && r[k] == x && RowsOf(g, t, t.root, 0) == r[..k + 1] + RowsOf(g, t, x, 0) + r[k + 1..]
         else RowsOf(g, t, t.root, 0) == r
  {
    hide HeapOk, ShapeOk, Rows;
    k := 0;
    HeapShape(h, t);
    ToggleKeeps(h, t, x);
    RowsDistinct(t, OpenOf(h), x, 0);
    ExpandElsewhere(t, OpenOf(h), x, x, 0);
    if x in RowsOf(h, t, t.root, 0) {
      k := ExpandInserts(t, OpenOf(h), x, t.root, 0);
    } else {
      ExpandElsewhere(t, OpenOf(h), x, t.root, 0);
    }
  }

  lemma HeapShape(h: Memory, t: Shape)
    requires HeapOk(h, t)
    ensures ShapeOk(t) && h.Keys == t.kids.Keys && t.root in h
    ensures forall n :: n in h ==> n in t.birth && t.birth[n] < t.next
  {
  }
}
