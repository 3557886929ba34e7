/**
 The data control of libgwm (libgwm/datactrl.c): a tree of nodes linked by
 parent, child and sibling pointers, with the positions of its rows, the
 selection, and the addition and deletion of nodes.
 */
module DataTree {
  import opened LinkedLists
  import opened TreeRows
  import opened TreeMemory
  import opened TreeEdits

  const ROW_HEIGHT := 20

  // ---- Positions of rows ----

  ghost predicate IsDrawn(h: Memory, g: Memory, n: Ptr, y: int) {
    n in h && n in g && g[n] == h[n].(data := h[n].data.(lastDrawY := y))
  }

  /** The rows r have been drawn from y on, one under the other, and nothing else has been drawn. */
  ghost predicate DrawnAs(h: Memory, g: Memory, r: seq<Ptr>, y: int) {
    && h.Keys == g.Keys
    && (forall k :: 0 <= k < |r| ==> r[k] in h && IsDrawn(h, g, r[k], y + ROW_HEIGHT * k))
    && (forall n :: n in h && n !in r ==> g[n] == h[n])
  }

  lemma DrawnNothing(h: Memory, y: int)
    ensures DrawnAs(h, h, [], y)
  {
  }

  lemma DrawnOne(h: Memory, n: Ptr, y: int)
    requires n in h
    ensures DrawnAs(h, h[n := h[n].(data := h[n].data.(lastDrawY := y))], [n], y)
  {
  }

  lemma DrawnKeeps(h: Memory, g: Memory, r: seq<Ptr>, y: int)
    requires DrawnAs(h, g, r, y)
    ensures SameTree(h, g)
  {
    forall n | n in h ensures SameLinks(h[n], g[n]) {
      if n in r {
        var k :| 0 <= k < |r| && r[k] == n;
        assert IsDrawn(h, g, r[k], y + ROW_HEIGHT * k);
      }
    }
  }

  /** Rows drawn after other rows. */
  lemma DrawnThen(h: Memory, g: Memory, f: Memory, r: seq<Ptr>, s: seq<Ptr>, y: int)
    requires DrawnAs(h, g, r, y) && DrawnAs(g, f, s, y + ROW_HEIGHT * |r|)
    requires forall k :: 0 <= k < |r| ==> r[k] !in s
    ensures DrawnAs(h, f, r + s, y)
  {
    var rs := r + s;
    forall k | 0 <= k < |rs| ensures rs[k] in h && IsDrawn(h, f, rs[k], y + ROW_HEIGHT * k) {
      if k < |r| {
        assert IsDrawn(h, g, r[k], y + ROW_HEIGHT * k);
      } else {
        assert IsDrawn(g, f, s[k - |r|], y + ROW_HEIGHT * |r| + ROW_HEIGHT * (k - |r|));
        assert s[k - |r|] !in r;
      }
    }
    forall n | n in h && n !in rs ensures f[n] == h[n] {
      assert n !in r && n !in s;
    }
  }

  /** The rows up to child i, then that child's row and those below it. */
  ghost function RowsBefore(t: Shape, open: set<Ptr>, n: Ptr, i: nat): (r: seq<Ptr>)
    requires ShapeOk(t) && n in t.kids && i <= |t.kids[n]|
    decreases i
  {
    if i == 0 then []
    else
      ChildAt(t, n, i - 1);
      RowsBefore(t, open, n, i - 1) + ([t.kids[n][i - 1]] + Below(t, open, t.kids[n][i - 1]))
  }

  lemma {:induction false} RowsSplit(t: Shape, open: set<Ptr>, n: Ptr, i: nat)
    requires ShapeOk(t) && n in t.kids && i <= |t.kids[n]|
    ensures RowsBefore(t, open, n, i) + Rows(t, open, n, i) == Rows(t, open, n, 0)
    decreases i
  {
    if i > 0 {
      ChildAt(t, n, i - 1);
      RowsSplit(t, open, n, i - 1);
      var c := t.kids[n][i - 1];
      var b := RowsBefore(t, open, n, i - 1);
      assert b + ([c] + Below(t, open, c)) + Rows(t, open, n, i)
          == b + ([c] + Below(t, open, c) + Rows(t, open, n, i));
    } else {
      assert [] + Rows(t, open, n, 0) == Rows(t, open, n, 0);
    }
  }

  lemma RowsBeforeMore(t: Shape, open: set<Ptr>, n: Ptr, i: nat)
    requires ShapeOk(t) && n in t.kids && i < |t.kids[n]|
    ensures t.kids[n][i] in t.kids
    ensures var c := t.kids[n][i]; var b := RowsBefore(t, open, n, i);
      && RowsBefore(t, open, n, i + 1) == b + ([c] + Below(t, open, c))
      && (forall k :: 0 <= k < |b| ==> b[k] !in [c] + Below(t, open, c))
      && c !in Below(t, open, c)
  {
    ChildAt(t, n, i);
    var c, b := t.kids[n][i], RowsBefore(t, open, n, i);
    RowsSplit(t, open, n, i);
    RowsDistinct(t, open, n, 0);
    var all := Rows(t, open, n, 0);
    var own := [c] + Below(t, open, c);
    assert Rows(t, open, n, i) == own + Rows(t, open, n, i + 1);
    forall k | 0 <= k < |b| ensures b[k] !in own {
      forall q | 0 <= q < |own| ensures own[q] != b[k] {
        assert all[k] == b[k] && all[|b| + q] == own[q];
      }
    }
    forall q | 0 <= q < |Below(t, open, c)| ensures Below(t, open, c)[q] != c {
      assert all[|b|] == c && all[|b| + 1 + q] == Below(t, open, c)[q];
    }
  }

  lemma BelowIs(h: Memory, t: Shape, c: Ptr)
    requires HeapOk(h, t) && c in h
    ensures c in t.kids
    ensures Below(t, OpenOf(h), c) == if h[c].data.expanded then RowsOf(h, t, c, 0) else []
  {
  }

  lemma RowsBeforeNone(t: Shape, open: set<Ptr>, n: Ptr)
    requires ShapeOk(t) && n in t.kids
    ensures RowsBefore(t, open, n, 0) == []
  {
  }

  lemma RowsBeforeAll(t: Shape, open: set<Ptr>, n: Ptr)
    requires ShapeOk(t) && n in t.kids
    ensures RowsBefore(t, open, n, |t.kids[n]|) == Rows(t, open, n, 0)
  {
    RowsSplit(t, open, n, |t.kids[n]|);
    RowsHead(t, open, n, |t.kids[n]|);
    assert RowsBefore(t, open, n, |t.kids[n]|) + [] == RowsBefore(t, open, n, |t.kids[n]|);
  }

  // ---- What the methods of the control come to ----

  /** The parent of a new node and its place among the children. */
  ghost function PlaceFor(t: Shape, root: Ptr, whence: Whence, ref: Option<Ptr>): (Ptr, nat)
    requires ShapeOk(t) && root in t.kids && whence != AddElsewhere
    requires ref.Some? ==> ref.value in t.par && ref.value in t.kids
    requires ref == None ==> whence == AddTopChild || whence == AddBottomChild
  {
    var r := if ref.Some? then ref.value else root;
    if whence == AddBefore then (t.par[r], IndexOf(t, r))
    else if whence == AddAfter then (t.par[r], IndexOf(t, r) + 1)
    else if whence == AddTopChild then (r, 0)
    else (r, |t.kids[r]|)
  }

  /** The child at place i has p directly before it, or directly behind it, among children that were s and are u. */
  ghost predicate PutBefore(s: seq<Ptr>, u: seq<Ptr>, r: Ptr, p: Ptr) {
    exists i :: 0 <= i < |s| && s[i] == r && u == s[..i] + [p] + s[i..]
  }

  ghost predicate PutBehind(s: seq<Ptr>, u: seq<Ptr>, r: Ptr, p: Ptr) {
    exists i :: 0 <= i < |s| && s[i] == r && u == s[..i] + [r, p] + s[i + 1..]
  }

  /**
   The new node p of the memory h is where `whence` says, in the children that were
   kids and in its pointers: directly before the reference, directly behind it, first
   of its children or last of them. The others keep their order and their parents.
   */
  ghost predicate IsAddedAs(
    h: Memory, kids: map<Ptr, seq<Ptr>>, par: map<Ptr, Ptr>, t: Shape, root: Ptr,
    whence: Whence, ref: Option<Ptr>, p: Ptr
  ) {
    var r := if ref.Some? then ref.value else root;
    && p in h && r in h && p in t.kids && t.kids[p] == []
    && var n := if (whence == AddBefore || whence == AddAfter) && r in par then par[r] else r;
    && n in kids && n in t.kids && h[p].data.parent == Some(n)
    && t.kids.Keys == kids.Keys + {p} && (forall m :: m in kids && m != n ==> t.kids[m] == kids[m])
    && match whence
       case AddBefore =>
         && h[p].next == Some(r) && h[r].prev == Some(p) && h[r].data.parent == h[p].data.parent
         && PutBefore(kids[n], t.kids[n], r, p)
       case AddAfter =>
         && h[p].prev == Some(r) && h[r].next == Some(p) && h[r].data.parent == h[p].data.parent
         && PutBehind(kids[n], t.kids[n], r, p)
       case AddTopChild => h[p].prev == None && h[r].data.children == Some(p) && t.kids[r] == [p] + kids[r]
       case AddBottomChild => h[p].next == None && t.kids[r] == kids[r] + [p]
       case AddElsewhere => false
  }

  /** The node p made and linked behind ref, and before it. */
  function WithNext(h: Memory, ref: Ptr, p: Ptr): Memory
    requires ref in h
  {
    var next := h[ref].next;
    var g := h[p := Node(Some(ref), next, Item(None, h[ref].data.parent, false, false, 0))]
              [ref := h[ref].(next := Some(p))];
    if next.Some? && next.value in h then g[next.value := h[next.value].(prev := Some(p))] else g
  }

  function WithPrev(h: Memory, ref: Ptr, p: Ptr): Memory
    requires ref in h
  {
    var prev, parent := h[ref].prev, h[ref].data.parent;
    var g := h[p := Node(prev, Some(ref), Item(None, parent, false, false, 0))][ref := h[ref].(prev := Some(p))];
    if prev.Some? && prev.value in h then g[prev.value := h[prev.value].(next := Some(p))]
    else if prev == None && parent.Some? && parent.value in h then
      g[parent.value := h[parent.value].(data := h[parent.value].data.(children := Some(p)))]
    else g
  }

  /** The selected nodes of a list. */
  ghost function Picked(h: Memory, s: seq<Ptr>): seq<Ptr> {
    if s == [] then []
    else Picked(h, s[..|s| - 1]) + (if s[|s| - 1] in h && h[s[|s| - 1]].data.selected then [s[|s| - 1]] else [])
  }

  ghost predicate SelectedAs(h: Memory, g: Memory, r: seq<Ptr>, sel: Ptr) {
    && h.Keys == g.Keys
    && (forall n :: n in h && n in r ==> g[n] == h[n].(data := h[n].data.(selected := n == sel)))
    && (forall n :: n in h && n !in r ==> g[n] == h[n])
  }

  /** sel is selected, and no other node of the tree is. */
  ghost predicate OnlySelected(h: Memory, t: Shape, sel: Ptr) {
    forall n :: n in t.par ==> n in h && (h[n].data.selected <==> n == sel)
  }

  /** The memory with sel alone selected: nothing else is different. */
  ghost function SelectionOf(h: Memory, t: Shape, sel: Ptr): Memory {
    map n | n in h :: if n in t.par then h[n].(data := h[n].data.(selected := n == sel)) else h[n]
  }

  /** The rows r are drawn from y0 on, one under the other. */
  ghost predicate PlacedAt(h: Memory, r: seq<Ptr>, y0: int) {
    forall k :: 0 <= k < |r| ==> r[k] in h && h[r[k]].data.lastDrawY == y0 + ROW_HEIGHT * k
  }

  /** The row at height y. */
  ghost function Hit(r: seq<Ptr>, y0: int, y: int): seq<Ptr> {
    if y0 <= y < y0 + ROW_HEIGHT * |r| then [r[(y - y0) / ROW_HEIGHT]] else []
  }

  class DataCtrl {
    var heap: Memory
    const root: Ptr
    var scrollY: int
    ghost var shape: Shape

    ghost predicate Valid()
      reads this
    {
      HeapOk(heap, shape) && shape.root == root
    }

    /**
     drawNode: the rows below parent are placed from plotY on, 20 apart; returns
     where the next row goes.
     */
    method DrawNode(parent: Ptr, plotY: int) returns (y: int)
      requires Valid() && parent in heap && parent in shape.kids
      modifies `heap
      ensures Valid() && OpenOf(heap) == OpenOf(old(heap))
      ensures DrawnAs(old(heap), heap, RowsOf(old(heap), shape, parent, 0), plotY - scrollY)
      ensures y == plotY + ROW_HEIGHT * |RowsOf(old(heap), shape, parent, 0)|
      decreases if parent in shape.birth then shape.next - shape.birth[parent] else 0
    {
      hide HeapOk, OpenOf, DrawnAs, RowsBefore, ShapeOk, Rows, Below, IsDrawn, SameTree;
      HeapShape(heap, shape);
      ghost var open := OpenOf(heap);
      ghost var i := 0;
      FirstChild(heap, shape, parent);
      RowsBeforeNone(shape, open, parent);
      DrawnNothing(heap, plotY - scrollY);
      y := plotY;
      var node := heap[parent].data.children;
      while node.Some?
        invariant Valid() && OpenOf(heap) == open && heap.Keys == old(heap).Keys
        invariant i <= |shape.kids[parent]| && node == ChildPtr(shape.kids[parent], i)
        invariant DrawnAs(old(heap), heap, RowsBefore(shape, open, parent, i), plotY - scrollY)
        invariant y == plotY + ROW_HEIGHT * |RowsBefore(shape, open, parent, i)|
        decreases |shape.kids[parent]| - i
      {
        var c := node.value;
        NextChild(heap, shape, parent, i);
        RowsBeforeMore(shape, open, parent, i);
        ghost var h0 := heap;
        var drawY := y - scrollY;
        y := y + ROW_HEIGHT;
        heap := heap[c := heap[c].(data := heap[c].data.(lastDrawY := drawY))];
        DrawnOne(h0, c, drawY);
        DrawnKeeps(h0, heap, [c], drawY);
        SameTreeKeeps(h0, heap, shape);
        BelowIs(heap, shape, c);
        ghost var h1 := heap;
        ghost var below := Below(shape, open, c);
        if heap[c].data.expanded {
          y := DrawNode(c, y);
          DrawnThen(h0, h1, heap, [c], below, drawY);
        } else {
          assert [c] + below == [c];
        }
        DrawnKeys(h0, heap, [c] + below, drawY);
        DrawnThen(old(heap), h0, heap, RowsBefore(shape, open, parent, i), [c] + below, plotY - scrollY);
        NextChild(heap, shape, parent, i);
        node := heap[c].next;
        i := i + 1;
      }
      RowsBeforeAll(shape, open, parent);
    }

    /**
     ctrlDoubleClick: the node whose row was clicked is activated, and no other.
     `breaks` is whether its handler ends the event.
     */
    method DoubleClick(y: int, parent: Ptr, breaks: bool, ghost y0: int) returns (activated: seq<Ptr>, broke: bool)
      requires Valid() && parent in heap && parent in shape.kids
      requires PlacedAt(heap, RowsOf(heap, shape, parent, 0), y0)
      ensures activated == Hit(RowsOf(heap, shape, parent, 0), y0, y)
      ensures broke <==> breaks && activated != []
      decreases if parent in shape.birth then shape.next - shape.birth[parent] else 0
    {
      hide HeapOk, OpenOf, PlacedAt, Hit, RowsBefore, ShapeOk, Rows, Below;
      HeapShape(heap, shape);
      ghost var open := OpenOf(heap);
      ghost var i := 0;
      FirstChild(heap, shape, parent);
      RowsBeforeNone(shape, open, parent);
      NoHit(y0, y);
      activated, broke := [], false;
      var node := heap[parent].data.children;
      while node.Some?
        invariant i <= |shape.kids[parent]| && node == ChildPtr(shape.kids[parent], i)
        invariant activated == Hit(RowsBefore(shape, open, parent, i), y0, y)
        invariant !broke && (breaks ==> activated == [])
        decreases |shape.kids[parent]| - i
      {
        var c := node.value;
        NextChild(heap, shape, parent, i);
        RowsBeforeMore(shape, open, parent, i);
        BelowIs(heap, shape, c);
        ghost var b, below := RowsBefore(shape, open, parent, i), Below(shape, open, c);
        RowsSplit(shape, open, parent, i);
        RowsOne(shape, open, parent, i);
        ChildPlaced(heap, b, c, below, Rows(shape, open, parent, i + 1), y0);
        ChildHit(b, c, below, Rows(shape, open, parent, i + 1), y0, y);
        if y >= heap[c].data.lastDrawY && y < heap[c].data.lastDrawY + ROW_HEIGHT {
          return [c], breaks;
        }
        if heap[c].data.expanded {
          var sub, subBroke := DoubleClick(y, c, breaks, y0 + ROW_HEIGHT * |b| + ROW_HEIGHT);
          activated := activated + sub;
          if subBroke {
            return activated, true;
          }
        } else {
          NoHit(y0 + ROW_HEIGHT * |b| + ROW_HEIGHT, y);
        }
        node := heap[c].next;
        i := i + 1;
      }
      RowsBeforeAll(shape, open, parent);
    }

    /** getSelectionRecur: the counter-th selected node below parent, or the counter less their number. */
    method GetSelectionRecur(parent: Ptr, counter0: int) returns (found: Option<Ptr>, counter: int)
      requires Valid() && parent in heap && parent in shape.kids
      ensures var p := Picked(heap, Rows(shape, heap.Keys, parent, 0));
        if 0 <= counter0 < |p| then found == Some(p[counter0]) else found == None && counter == counter0 - |p|
      decreases if parent in shape.birth then shape.next - shape.birth[parent] else 0
    {
      hide HeapOk, RowsBefore, ShapeOk, Rows, Below, Picked;
      HeapShape(heap, shape);
      ghost var i := 0;
      FirstChild(heap, shape, parent);
      RowsBeforeNone(shape, heap.Keys, parent);
      PickedNone(heap);
      found, counter := None, counter0;
      var node := heap[parent].data.children;
      while node.Some?
        invariant i <= |shape.kids[parent]| && node == ChildPtr(shape.kids[parent], i)
        invariant var p := Picked(heap, RowsBefore(shape, heap.Keys, parent, i));
          counter == counter0 - |p| && !(0 <= counter0 < |p|)
        invariant found == None
        decreases |shape.kids[parent]| - i
      {
        var c := node.value;
        NextChild(heap, shape, parent, i);
        RowsSplit(shape, heap.Keys, parent, i);
        RowsOne(shape, heap.Keys, parent, i);
        WholeBelow(shape, heap.Keys, c);
        ghost var b, below := RowsBefore(shape, heap.Keys, parent, i), Below(shape, heap.Keys, c);
        PickedSplit(heap, b, c, below, Rows(shape, heap.Keys, parent, i + 1));
        if heap[c].data.selected {
          if counter == 0 {
            return Some(c), counter;
          }
          counter := counter - 1;
        }
        var candidate;
        candidate, counter := GetSelectionRecur(c, counter);
        if candidate.Some? {
          return candidate, counter;
        }
        node := heap[c].next;
        i := i + 1;
      }
      RowsBeforeAll(shape, heap.Keys, parent);
    }

    /** gwmGetDataSelection: the index-th selected node from the top, expanded or not. */
    method GetSelection(index: int) returns (found: Option<Ptr>)
      requires Valid()
      ensures var p := Picked(heap, Rows(shape, heap.Keys, root, 0));
        found == if 0 <= index < |p| then Some(p[index]) else None
      ensures found.Some? ==> found.value in shape.par && found.value in heap && heap[found.value].data.selected
    {
      hide HeapOk, ShapeOk, Rows, Picked;
      HeapShape(heap, shape);
      var counter;
      found, counter := GetSelectionRecur(root, index);
      if found.Some? { PickedIs(heap, shape, found.value); }
    }

    /** ctrlSelectOnlyRecur. */
    method SelectOnlyRecur(parent: Ptr, sel: Ptr)
      requires Valid() && parent in heap && parent in shape.kids
      modifies `heap
      ensures Valid() && SelectedAs(old(heap), heap, Rows(shape, old(heap).Keys, parent, 0), sel)
      decreases if parent in shape.birth then shape.next - shape.birth[parent] else 0
    {
      hide HeapOk, OpenOf, SelectedAs, RowsBefore, ShapeOk, Rows, Below, SameTree;
      HeapShape(heap, shape);
      ghost var all := heap.Keys;
      ghost var i := 0;
      FirstChild(heap, shape, parent);
      RowsBeforeNone(shape, all, parent);
      SelectedNothing(heap, sel);
      var node := heap[parent].data.children;
      while node.Some?
        invariant Valid() && heap.Keys == all
        invariant i <= |shape.kids[parent]| && node == ChildPtr(shape.kids[parent], i)
        invariant SelectedAs(old(heap), heap, RowsBefore(shape, all, parent, i), sel)
        decreases |shape.kids[parent]| - i
      {
        var c := node.value;
        NextChild(heap, shape, parent, i);
        RowsBeforeMore(shape, all, parent, i);
        WholeBelow(shape, all, c);
        ghost var h0 := heap;
        heap := heap[c := heap[c].(data := heap[c].data.(selected := c == sel))];
        SelectedOne(h0, c, sel);
        SelectedKeeps(h0, heap, [c], sel);
        SameTreeKeeps(h0, heap, shape);
        ghost var h1 := heap;
        SelectOnlyRecur(c, sel);
        SelectedThen(h0, h1, heap, [c], Below(shape, all, c), sel);
        SelectedKeeps(h0, heap, [c] + Below(shape, all, c), sel);
        SelectedThen(old(heap), h0, heap, RowsBefore(shape, all, parent, i), [c] + Below(shape, all, c), sel);
        NextChild(heap, shape, parent, i);
        node := heap[c].next;
        i := i + 1;
      }
      RowsBeforeAll(shape, all, parent);
    }

    /** ctrlSelectOnly, without the scrolling and the event: sel alone is selected. */
    method SelectOnly(sel: Ptr)
      requires Valid() && sel in shape.par
      modifies `heap
      ensures Valid() && SameTree(old(heap), heap) && OnlySelected(heap, shape, sel)
      ensures heap == SelectionOf(old(heap), shape, sel)
      ensures forall n :: n in shape.par ==> n in heap && (heap[n].data.selected <==> n == sel)
    {
      hide HeapOk, ShapeOk, Rows, OnlySelected, SelectionOf, SelectedAs, SameTree;
      HeapShape(heap, shape);
      ghost var h := heap;
      SelectOnlyRecur(root, sel);
      SelectedKeeps(h, heap, Rows(shape, h.Keys, root, 0), sel);
      AllSelected(h, heap, shape, sel);
      SelectedIs(heap, shape, sel);
    }

    /** The UP key, with a node selected: where the selection goes. */
    method UpTarget(sel: Ptr) returns (target: Option<Ptr>)
      requires Valid() && sel in shape.par
      ensures sel in shape.par && ShapeOk(shape) && target == Up(shape, OpenOf(heap), sel)
      ensures target.Some? ==> target.value in shape.par
    {
      hide HeapOk, ShapeOk, OpenOf, Up, Deepest;
      HeapShape(heap, shape);
      SiblingOf(heap, shape, sel);
      UpCases(shape, OpenOf(heap), sel);
      if heap[sel].prev.Some? {
        var cand := heap[sel].prev.value;
        ghost var first := cand;
        while heap[cand].data.expanded && heap[cand].data.children.Some?
          invariant cand in heap && cand in shape.par && cand in shape.kids
          invariant Deepest(shape, OpenOf(heap), first) == Deepest(shape, OpenOf(heap), cand)
          decreases if cand in shape.birth then shape.next - shape.birth[cand] else 0
        {
          var last := LastChild(cand);
          DeeperOnce(heap, shape, cand);
          NextChild(heap, shape, cand, |shape.kids[cand]| - 1);
          cand := last;
        }
        DeeperOnce(heap, shape, cand);
        target := Some(cand);
      } else if heap[sel].data.parent.Some? && heap[sel].data.parent != Some(root) {
        target := heap[sel].data.parent;
      } else {
        target := None;
      }
    }

    /** The loop to the last of the children of a node. */
    method LastChild(n: Ptr) returns (last: Ptr)
      requires Valid() && n in heap && n in shape.kids && heap[n].data.children.Some?
      ensures shape.kids[n] != [] && last == shape.kids[n][|shape.kids[n]| - 1]
    {
      hide HeapOk, ShapeOk;
      FirstChild(heap, shape, n);
      last := heap[n].data.children.value;
      ghost var i := 0;
      NextChild(heap, shape, n, i);
      while heap[last].next.Some?
        invariant i < |shape.kids[n]| && last == shape.kids[n][i] && last in heap
        invariant heap[last].next == ChildPtr(shape.kids[n], i + 1)
        decreases |shape.kids[n]| - i
      {
        last := heap[last].next.value;
        i := i + 1;
        NextChild(heap, shape, n, i);
      }
    }

    /** The DOWN key, with a node selected: where the selection goes. */
    method DownTarget(sel0: Ptr) returns (target: Option<Ptr>)
      requires Valid() && sel0 in shape.par
      ensures sel0 in shape.par && ShapeOk(shape) && target == Down(shape, OpenOf(heap), sel0)
      ensures target.Some? ==> target.value in shape.par
    {
      hide HeapOk, ShapeOk, OpenOf, Down, Skip;
      HeapShape(heap, shape);
      var sel := sel0;
      SiblingOf(heap, shape, sel);
      DownCases(heap, shape, sel);
      if heap[sel].data.expanded && heap[sel].data.children.Some? {
        return heap[sel].data.children;
      }
      SkipCases(heap, shape, sel);
      while heap[sel].next == None
        invariant sel in heap && sel in shape.par && Skip(shape, sel0) == Skip(shape, sel)
        decreases if sel in shape.birth then shape.birth[sel] else 0
      {
        SkipCases(heap, shape, sel);
        if heap[sel].data.parent == None || heap[sel].data.parent == Some(root) {
          return None;
        }
        sel := heap[sel].data.parent.value;
      }
      SkipCases(heap, shape, sel);
      target := heap[sel].next;
    }

    /** The DOWN key: the first selected node gives way to the row below it. */
    method KeyDown()
      requires Valid()
      modifies `heap
      ensures Valid() && SameTree(old(heap), heap)
      ensures var p := Picked(old(heap), Rows(shape, old(heap).Keys, root, 0));
        if p == [] then heap == old(heap)
        else
          && p[0] in shape.par
          && var d := Down(shape, OpenOf(old(heap)), p[0]);
          heap == if d == None then old(heap) else SelectionOf(old(heap), shape, d.value)
    {
      hide HeapOk, ShapeOk, OpenOf, Down, Picked, OnlySelected, SelectionOf, Rows, SameTree;
      SameTreeAsItself(heap);
      HeapShape(heap, shape);
      var sel := GetSelection(0);
      if sel.Some? {
        var target := DownTarget(sel.value);
        if target.Some? { SelectOnly(target.value); }
      }
    }

    /** The UP key: the first selected node gives way to the row above it. */
    method KeyUp()
      requires Valid()
      modifies `heap
      ensures Valid() && SameTree(old(heap), heap)
      ensures var p := Picked(old(heap), Rows(shape, old(heap).Keys, root, 0));
        if p == [] then heap == old(heap)
        else
          && p[0] in shape.par
          && var u := Up(shape, OpenOf(old(heap)), p[0]);
          heap == if u == None then old(heap) else SelectionOf(old(heap), shape, u.value)
    {
      hide HeapOk, ShapeOk, OpenOf, Up, Picked, OnlySelected, SelectionOf, Rows, SameTree;
      SameTreeAsItself(heap);
      HeapShape(heap, shape);
      var sel := GetSelection(0);
      if sel.Some? {
        var target := UpTarget(sel.value);
        if target.Some? { SelectOnly(target.value); }
      }
    }

    /**
     The SPACE key: the first selected node is expanded or collapsed, if it has
     children or its flags say that it may, and its handler does not object.
     */
    method KeySpace(forced: bool, agreed: bool)
      requires Valid()
      modifies `heap
      ensures Valid()
      ensures var p := Picked(old(heap), Rows(shape, old(heap).Keys, root, 0));
        if p == [] then heap == old(heap)
        else
          && p[0] in old(heap) && p[0] in shape.kids
          && heap == if agreed && (forced || shape.kids[p[0]] != []) then Toggled(old(heap), p[0]) else old(heap)
    {
      hide HeapOk, ShapeOk, Picked, Rows;
      HeapShape(heap, shape);
      var sel := GetSelection(0);
      if sel.Some? {
        var x := sel.value;
        FirstChild(heap, shape, x);
        if (heap[x].data.children.Some? || forced) && agreed {
          ToggleKeeps(heap, shape, x);
          heap := heap[x := heap[x].(data := heap[x].data.(expanded := !heap[x].data.expanded))];
        }
      }
    }

    /** The tree of a new control: the root alone. */
    constructor ()
      ensures Valid() && shape.kids == map[root := []] && heap.Keys == {root}
    {
      root := 0;
      heap := map[0 := Node(None, None, Item(None, None, false, false, 0))];
      scrollY := 0;
      shape := Shape(0, map[0 := []], map[], map[0 := 0], 1);
    }

    /** GWM_DATA_ADD_BEFORE. */
    method LinkBefore(ref: Ptr, p: Ptr, ghost n: Ptr, ghost i: nat)
      requires Valid() && p !in heap && ref in shape.par && n == shape.par[ref] && n in shape.kids
      requires ShapeOk(shape) && i == IndexOf(shape, ref)
      modifies `heap
      ensures heap == Added(old(heap), n, Neighbours(shape.kids[n], i).0, Neighbours(shape.kids[n], i).1, p)
    {
      hide HeapOk, ShapeOk, Added, Neighbours, IndexOf;
      RefLinks(heap, shape, ref);
      LinkedBefore(heap, shape, ref, p);
      ghost var h := heap;
      heap := heap[p := Node(None, None, Item(None, None, false, false, 0))];
      var e := heap[ref];
      if e.prev == None {
        var q := e.data.parent.value;
        heap := heap[q := heap[q].(data := heap[q].data.(children := Some(p)))];
      } else {
        heap := heap[e.prev.value := heap[e.prev.value].(next := Some(p))];
      }
      heap := heap[p := heap[p].(prev := heap[ref].prev)];
      heap := heap[ref := heap[ref].(prev := Some(p))];
      heap := heap[p := heap[p].(next := Some(ref))];
      heap := heap[p := heap[p].(data := heap[p].data.(parent := heap[ref].data.parent))];
      assert heap == WithPrev(h, ref, p);
    }

    /** GWM_DATA_ADD_AFTER. */
    method LinkAfter(ref: Ptr, p: Ptr, ghost n: Ptr, ghost i: nat)
      requires Valid() && p !in heap && ref in shape.par && n == shape.par[ref] && n in shape.kids
      requires ShapeOk(shape) && i == IndexOf(shape, ref) + 1
      modifies `heap
      ensures heap == Added(old(heap), n, Neighbours(shape.kids[n], i).0, Neighbours(shape.kids[n], i).1, p)
    {
      hide HeapOk, ShapeOk, Added, Neighbours, IndexOf;
      RefLinks(heap, shape, ref);
      LinkedAfter(heap, shape, ref, p);
      ghost var h := heap;
      heap := heap[p := Node(None, None, Item(None, None, false, false, 0))];
      if heap[ref].next.Some? {
        var q := heap[ref].next.value;
        heap := heap[q := heap[q].(prev := Some(p))];
      }
      heap := heap[p := heap[p].(next := heap[ref].next)];
      heap := heap[ref := heap[ref].(next := Some(p))];
      heap := heap[p := heap[p].(prev := Some(ref))];
      heap := heap[p := heap[p].(data := heap[p].data.(parent := heap[ref].data.parent))];
      assert heap == WithNext(h, ref, p);
    }

    /** GWM_DATA_ADD_TOP_CHILD, which here also sets the `prev` of the child that was first. */
    method LinkTopChild(ref: Ptr, p: Ptr)
      requires Valid() && p !in heap && ref in heap && ref in shape.kids
      modifies `heap
      ensures heap == Added(old(heap), ref, Neighbours(shape.kids[ref], 0).0, Neighbours(shape.kids[ref], 0).1, p)
    {
      hide HeapOk, ShapeOk, Added;
      AddedParts(heap, shape, ref, 0, p);
      FirstChild(heap, shape, ref);
      if shape.kids[ref] != [] { NextChild(heap, shape, ref, 0); }
      heap := heap[p := Node(None, None, Item(None, None, false, false, 0))];
      heap := heap[p := heap[p].(data := heap[p].data.(parent := Some(ref)))];
      heap := heap[p := heap[p].(next := heap[ref].data.children)];
      if heap[ref].data.children.Some? {
        var first := heap[ref].data.children.value;
        heap := heap[first := heap[first].(prev := Some(p))];
      }
      heap := heap[ref := heap[ref].(data := heap[ref].data.(children := Some(p)))];
      assert heap == Added(old(heap), ref, Neighbours(shape.kids[ref], 0).0, Neighbours(shape.kids[ref], 0).1, p);
    }

    /** GWM_DATA_ADD_BOTTOM_CHILD. */
    method LinkBottomChild(ref: Ptr, p: Ptr)
      requires Valid() && p !in heap && ref in heap && ref in shape.kids
      modifies `heap
      ensures var k := shape.kids[ref];
        heap == Added(old(heap), ref, Neighbours(k, |k|).0, Neighbours(k, |k|).1, p)
    {
      hide HeapOk, ShapeOk, Added;
      ghost var k := shape.kids[ref];
      AddedParts(heap, shape, ref, |k|, p);
      FirstChild(heap, shape, ref);
      if heap[ref].data.children == None {
        heap := heap[p := Node(None, None, Item(None, None, false, false, 0))];
        heap := heap[p := heap[p].(data := heap[p].data.(parent := Some(ref)))];
        heap := heap[ref := heap[ref].(data := heap[ref].data.(children := Some(p)))];
      } else {
        var last := LastChild(ref);
        NextChild(heap, shape, ref, |k| - 1);
        heap := heap[p := Node(None, None, Item(None, None, false, false, 0))];
        heap := heap[last := heap[last].(next := Some(p))];
        heap := heap[p := heap[p].(prev := Some(last))];
        heap := heap[p := heap[p].(data := heap[p].data.(parent := Some(ref)))];
      }
      assert heap == Added(old(heap), ref, Neighbours(k, |k|).0, Neighbours(k, |k|).1, p);
    }

    /** The switch of gwmAddDataNode. */
    method Attach(whence: Whence, ref: Ptr, ghost ref0: Option<Ptr>, p: Ptr, ghost n: Ptr, ghost i: nat)
      requires Valid() && ShapeOk(shape) && p !in heap && whence != AddElsewhere && ref in heap && ref in shape.kids
      requires n in shape.kids && i <= |shape.kids[n]|
      requires root in shape.kids && (ref0.Some? ==> ref0.value in shape.par && ref0.value in shape.kids)
      requires ref0 == None ==> whence == AddTopChild || whence == AddBottomChild
      requires ref == (if ref0.Some? then ref0.value else root)
      requires (n, i) == PlaceFor(shape, root, whence, ref0)
      modifies `heap
      ensures heap == Added(old(heap), n, Neighbours(shape.kids[n], i).0, Neighbours(shape.kids[n], i).1, p)
    {
      hide HeapOk, ShapeOk, Added, Neighbours;
      if whence == AddBefore {
        LinkBefore(ref, p, n, i);
      } else if whence == AddAfter {
        LinkAfter(ref, p, n, i);
      } else if whence == AddTopChild {
        LinkTopChild(ref, p);
      } else {
        LinkBottomChild(ref, p);
      }
    }

    /** gwmAddDataNode: the new node p, which malloc has just returned, goes where `whence` says. */
    method AddNode(whence: Whence, ref0: Option<Ptr>, p: Ptr) returns (node: Option<Ptr>)
      requires Valid() && p !in heap
      requires ref0.Some? ==> ref0.value in shape.par && ref0.value in shape.kids
      modifies `heap, `shape
      ensures Valid()
      ensures node == None <==> whence == AddElsewhere || (ref0 == None && (whence == AddBefore || whence == AddAfter))
      ensures node == None ==> heap == old(heap) && shape == old(shape)
      ensures node.Some? ==> ShapeOk(old(shape))
      ensures node.Some? ==>
        && node == Some(p)
        && var (n, i) := PlaceFor(old(shape), root, whence, ref0);
           n in old(shape).kids && i <= |old(shape).kids[n]| && shape == AddShape(old(shape), n, i, p)
      ensures node.Some? ==> IsAddedAs(heap, old(shape).kids, old(shape).par, shape, root, whence, ref0, p)
      ensures node.Some? ==> forall x :: x in old(heap) ==>
        x in heap && heap[x].data == old(heap)[x].data.(children := heap[x].data.children)
      ensures node.Some? ==> p in heap && heap[p].data == Item(None, heap[p].data.parent, false, false, 0)
    {
      hide HeapOk, ShapeOk, AddShape, Added, Neighbours, PlaceFor, IsAddedAs;
      node := None;
      if whence == AddElsewhere { return; }
      var ref := root;
      if ref0 == None {
        if whence == AddBefore || whence == AddAfter { return; }
      } else {
        ref := ref0.value;
      }
      HeapShape(heap, shape);
      PlaceIsThere(heap, shape, whence, ref0);
      ghost var n, i := PlaceFor(shape, root, whence, ref0).0, PlaceFor(shape, root, whence, ref0).1;
      AddOk(heap, shape, n, i, p);
      AddedData(heap, shape, n, i, p);
      Attach(whence, ref, ref0, p, n, i);
      shape := AddShape(shape, n, i, p);
      node := Some(p);
      AddedRoot(old(shape), n, i, p);
      AddedAsAsked(heap, old(shape), whence, ref0, p);
    }

    /**
     deleteNodeRecur: x is taken out of its list, its children lose their parent,
     and they are deleted one after another before x itself is freed.
     */
    method DeleteNodeRecur(x: Ptr)
      requires SubOk(heap, shape, x)
      modifies `heap
      ensures ShapeOk(shape) && x in old(heap) && heap == Deleted(old(heap), shape, x)
      decreases if x in shape.birth then shape.next - shape.birth[x] else 0
    {
      hide SubOk, ShapeOk, TakenOut, Deleted, DeletedUpTo, OrphanedUpTo, Under;
      ghost var h := heap;
      SubNodes(heap, shape, x);
      TakenOutAt(h, shape, x, x);
      TakeOut(x);
      var child := heap[x].data.children;
      ghost var j := 0;
      OrphanedNone(heap, shape, x);
      OrphanLinks(h, heap, shape, x, 0, 0);
      while child.Some?
        invariant j <= |shape.kids[x]| && child == ChildPtr(shape.kids[x], j)
        invariant OrphanedUpTo(TakenOut(h, x), heap, shape, x, j)
        decreases |shape.kids[x]| - j
      {
        var c := child.value;
        OrphanLinks(h, heap, shape, x, j, j);
        OrphanOne(TakenOut(h, x), heap, shape, x, j);
        heap := heap[c := heap[c].(data := heap[c].data.(parent := None))];
        child := heap[c].next;
        j := j + 1;
      }
      AllOrphans(h, heap, shape, x);
      DeletedHead(h, heap, shape, x, 0);
      j := 0;
      while heap[x].data.children.Some?
        invariant j <= |shape.kids[x]| && DeletedUpTo(h, heap, shape, x, j)
        invariant x in heap && heap[x].data.children == ChildPtr(shape.kids[x], j)
        decreases |shape.kids[x]| - j
      {
        var c := heap[x].data.children.value;
        ChildAt(shape, x, j);
        ChildCanGo(h, heap, shape, x, j);
        DeleteStep(h, heap, shape, x, j);
        heap := heap[x := heap[x].(data := heap[x].data.(children := heap[c].next))];
        DeleteNodeRecur(c);
        j := j + 1;
        DeletedHead(h, heap, shape, x, j);
      }
      DeleteDone(h, heap, shape, x);
      heap := heap - {x};
    }

    /** The pointer assignments at the start of deleteNodeRecur. */
    method TakeOut(x: Ptr)
      requires SubOk(heap, shape, x) && x in heap
      modifies `heap
      ensures heap == TakenOut(old(heap), x)
    {
      hide Under, Sub, ShapeOk;
      var e := heap[x];
      if e.prev == None {
        if e.data.parent.Some? {
          var n := e.data.parent.value;
          heap := heap[n := heap[n].(data := heap[n].data.(children := e.next))];
        }
      } else {
        heap := heap[e.prev.value := heap[e.prev.value].(next := e.next)];
      }
      if e.next.Some? {
        heap := heap[e.next.value := heap[e.next.value].(prev := e.prev)];
      }
    }

    /** gwmDeleteDataNode: the node and everything below it is gone, and the rest is a sound tree. */
    method DeleteNode(x: Ptr)
      requires Valid() && x in shape.par
      modifies `heap, `shape
      ensures ShapeOk(old(shape)) && Valid() && shape == PruneShape(old(shape), x)
      ensures heap.Keys == old(heap).Keys - Sub(old(shape), x)
    {
      hide HeapOk, ShapeOk, SubOk, PruneShape, Sub, TakenOut, Under;
      HeapShape(heap, shape);
      SubFromTree(heap, shape, x);
      SubNodes(heap, shape, x);
      PruneOk(heap, shape, x);
      TakenOutAt(heap, shape, x, x);
      RootStays(shape, x);
      DeleteNodeRecur(x);
      PrunedRoot(shape, x);
      shape := PruneShape(shape, x);
    }
  }

  lemma AddedData(h: Memory, t: Shape, n: Ptr, i: nat, p: Ptr)
    requires HeapOk(h, t) && n in t.kids && n in h && i <= |t.kids[n]| && p !in h
    ensures var g := Added(h, n, Neighbours(t.kids[n], i).0, Neighbours(t.kids[n], i).1, p);
      && p in g && g[p].data == Item(None, Some(n), false, false, 0)
      && forall x :: x in h ==> x in g && g[x].data == h[x].data.(children := g[x].data.children)
  {
    hide HeapOk, Added, Neighbours;
    AddedParts(h, t, n, i, p);
  }

  lemma AddedRoot(t: Shape, n: Ptr, i: nat, p: Ptr)
    requires n in t.kids && i <= |t.kids[n]|
    ensures AddShape(t, n, i, p).root == t.root
  {
  }

  lemma DeletedHead(h: Memory, g: Memory, t: Shape, x: Ptr, j: nat)
    requires SubOk(h, t, x) && j <= |t.kids[x]| && DeletedUpTo(h, g, t, x, j)
    ensures x in g && g[x].data.children == ChildPtr(t.kids[x], j)
  {
  }

  lemma PrunedRoot(t: Shape, x: Ptr)
    requires ShapeOk(t) && x in t.par
    ensures PruneShape(t, x).root == t.root
  {
  }

  datatype Whence = AddBefore | AddAfter | AddTopChild | AddBottomChild | AddElsewhere

  lemma PlaceIsThere(h: Memory, t: Shape, whence: Whence, ref: Option<Ptr>)
    requires HeapOk(h, t) && ShapeOk(t) && t.root in t.kids && whence != AddElsewhere
    requires ref.Some? ==> ref.value in t.par && ref.value in t.kids
    requires ref == None ==> whence == AddTopChild || whence == AddBottomChild
    ensures var (n, i) := PlaceFor(t, t.root, whence, ref); n in t.kids && n in h && i <= |t.kids[n]|
    ensures ref.Some? ==> ref.value in t.kids && ref.value in h
  {
    hide ShapeOk;
    if ref.Some? { ParentOk(t, ref.value); }
  }

  lemma {:induction false} AddedAsAsked(h: Memory, t: Shape, whence: Whence, ref: Option<Ptr>, p: Ptr)
    requires ShapeOk(t) && t.root in t.kids && whence != AddElsewhere && p !in t.kids
    requires ref.Some? ==> ref.value in t.par && ref.value in t.kids
    requires ref == None ==> whence == AddTopChild || whence == AddBottomChild
    requires var (n, i) := PlaceFor(t, t.root, whence, ref);
      n in t.kids && i <= |t.kids[n]| && HeapOk(h, AddShape(t, n, i, p))
    ensures
      var (n, i) := PlaceFor(t, t.root, whence, ref);
      IsAddedAs(h, t.kids, t.par, AddShape(t, n, i, p), t.root, whence, ref, p)
  {
    hide HeapOk, ShapeOk, PlaceFor, PutBefore, PutBehind, Inserted;
    var (n, i) := PlaceFor(t, t.root, whence, ref);
    var u := AddShape(t, n, i, p);
    PlaceForIs(t, whence, ref);
    HeapShape(h, u);
    NextChild(h, u, n, i);
    if whence == AddBefore {
      StandsBefore(h, u, t.kids[n], n, i, p);
    } else if whence == AddAfter {
      StandsBehind(h, u, t.kids[n], n, i - 1, p);
    } else if whence == AddTopChild {
      StandsFirst(h, u, t.kids[n], n, p);
    } else {
      StandsLast(h, u, t.kids[n], n, p);
    }
  }

  lemma PlaceForIs(t: Shape, whence: Whence, ref: Option<Ptr>)
    requires ShapeOk(t) && t.root in t.kids && whence != AddElsewhere
    requires ref.Some? ==> ref.value in t.par && ref.value in t.kids
    requires ref == None ==> whence == AddTopChild || whence == AddBottomChild
    ensures
      var (n, i) := PlaceFor(t, t.root, whence, ref);
      var r := if ref.Some? then ref.value else t.root;
      && r in t.kids && n in t.kids && i <= |t.kids[n]|
      && (whence == AddBefore ==> n == t.par[r] && i < |t.kids[n]| && t.kids[n][i] == r)
      && (whence == AddAfter ==> n == t.par[r] && i > 0 && t.kids[n][i - 1] == r)
      && (whence == AddTopChild ==> n == r && i == 0)
      && (whence == AddBottomChild ==> n == r && i == |t.kids[n]|)
  {
    hide ShapeOk;
    if ref.Some? { ParentOk(t, ref.value); }
  }

  lemma StandsBefore(h: Memory, u: Shape, s: seq<Ptr>, n: Ptr, i: nat, p: Ptr)
    requires HeapOk(h, u) && n in u.kids && i < |s| && u.kids[n] == Inserted(s, i, p)
    ensures p in h && s[i] in h && h[p].next == Some(s[i]) && h[s[i]].prev == Some(p)
    ensures h[p].data.parent == Some(n) && h[s[i]].data.parent == Some(n)
    ensures PutBefore(s, u.kids[n], s[i], p)
  {
    hide HeapOk;
    NextChild(h, u, n, i);
    NextChild(h, u, n, i + 1);
  }

  lemma StandsBehind(h: Memory, u: Shape, s: seq<Ptr>, n: Ptr, i: nat, p: Ptr)
    requires HeapOk(h, u) && n in u.kids && i < |s| && u.kids[n] == Inserted(s, i + 1, p)
    ensures p in h && s[i] in h && h[p].prev == Some(s[i]) && h[s[i]].next == Some(p)
    ensures h[p].data.parent == Some(n) && h[s[i]].data.parent == Some(n)
    ensures PutBehind(s, u.kids[n], s[i], p)
  {
    hide HeapOk;
    NextChild(h, u, n, i);
    NextChild(h, u, n, i + 1);
    assert u.kids[n] == s[..i] + [s[i], p] + s[i + 1..];
  }

  lemma StandsFirst(h: Memory, u: Shape, s: seq<Ptr>, n: Ptr, p: Ptr)
    requires HeapOk(h, u) && n in u.kids && u.kids[n] == Inserted(s, 0, p)
    ensures n in h && p in h && h[p].prev == None && h[n].data.children == Some(p) && u.kids[n] == [p] + s
  {
    hide HeapOk;
    HeapShape(h, u);
    FirstChild(h, u, n);
    NextChild(h, u, n, 0);
    assert u.kids[n] == [p] + s;
  }

  lemma StandsLast(h: Memory, u: Shape, s: seq<Ptr>, n: Ptr, p: Ptr)
    requires HeapOk(h, u) && n in u.kids && u.kids[n] == Inserted(s, |s|, p)
    ensures n in h && p in h && h[p].next == None && u.kids[n] == s + [p]
  {
    hide HeapOk;
    HeapShape(h, u);
    NextChild(h, u, n, |s|);
    assert u.kids[n] == s + [p];
  }

  /** The pointers of a node that is not the root. */
  lemma RefLinks(h: Memory, t: Shape, ref: Ptr)
    requires HeapOk(h, t) && ref in t.par
    ensures ref in h && h[ref].data.parent == Some(t.par[ref]) && t.par[ref] in h && t.par[ref] in t.kids
    ensures var (k, s) := (IndexOf(t, ref), t.kids[t.par[ref]]);
      && h[ref].prev == Neighbours(s, k).0 && Neighbours(s, k).1 == Some(ref)
      && h[ref].next == Neighbours(s, k + 1).1 && Neighbours(s, k + 1).0 == Some(ref)
    ensures ref != t.par[ref]
    ensures h[ref].prev.Some? ==> h[ref].prev.value in h && h[ref].prev.value != ref && h[ref].prev.value != t.par[ref]
    ensures h[ref].next.Some? ==> h[ref].next.value in h && h[ref].next.value != ref && h[ref].next.value != t.par[ref]
  {
    hide ShapeOk, HeapOk;
    HeapShape(h, t);
    ParentOk(t, ref);
    var p, k := t.par[ref], IndexOf(t, ref);
    NextChild(h, t, p, k);
    if k > 0 { NextChild(h, t, p, k - 1); SiblingsDiffer(t, p, k - 1, k); }
    if k + 1 < |t.kids[p]| { NextChild(h, t, p, k + 1); SiblingsDiffer(t, p, k, k + 1); }
  }

  /** Adding, as the assignments to single fields that it comes to. */
  lemma AddedParts(h: Memory, t: Shape, n: Ptr, i: nat, p: Ptr)
    requires HeapOk(h, t) && n in t.kids && n in h && i <= |t.kids[n]| && p !in h
    ensures var (b, a) := Neighbours(t.kids[n], i);
      var g := Added(h, n, b, a, p);
      && g.Keys == h.Keys + {p} && g[p] == Node(b, a, NewItem(n))
      && (forall x :: x in h ==>
            g[x] == Node(if a == Some(x) then Some(p) else h[x].prev, if b == Some(x) then Some(p) else h[x].next,
                         if x == n && b == None then h[x].data.(children := Some(p)) else h[x].data))
  {
    hide HeapOk, Added, Neighbours;
    forall x | x in h {
      AddedAt(h, t, n, i, p, x);
    }
    AddedAt(h, t, n, i, p, n);
  }

  lemma {:induction false} LinkedAfter(h: Memory, t: Shape, ref: Ptr, p: Ptr)
    requires HeapOk(h, t) && ShapeOk(t) && ref in t.par && t.par[ref] in t.kids && p !in h
    ensures ref in h
    ensures var s := t.kids[t.par[ref]]; var k := IndexOf(t, ref) + 1;
      k <= |s| && WithNext(h, ref, p) == Added(h, t.par[ref], Neighbours(s, k).0, Neighbours(s, k).1, p)
  {
    hide HeapOk, ShapeOk, Added, Neighbours, IndexOf;
    RefLinks(h, t, ref);
    AddedParts(h, t, t.par[ref], IndexOf(t, ref) + 1, p);
  }

  lemma {:induction false} LinkedBefore(h: Memory, t: Shape, ref: Ptr, p: Ptr)
    requires HeapOk(h, t) && ShapeOk(t) && ref in t.par && t.par[ref] in t.kids && p !in h
    ensures ref in h
    ensures var s := t.kids[t.par[ref]]; var k := IndexOf(t, ref);
      WithPrev(h, ref, p) == Added(h, t.par[ref], Neighbours(s, k).0, Neighbours(s, k).1, p)
  {
    hide HeapOk, ShapeOk, Added, Neighbours, IndexOf;
    RefLinks(h, t, ref);
    AddedParts(h, t, t.par[ref], IndexOf(t, ref), p);
  }

  // ---- Selections ----

  lemma PickedNone(h: Memory)
    ensures Picked(h, []) == []
  {
  }

  lemma {:induction false} PickedAppend(h: Memory, s: seq<Ptr>, r: seq<Ptr>)
    ensures Picked(h, s + r) == Picked(h, s) + Picked(h, r)
    decreases |r|
  {
    if r == [] {
      assert s + r == s;
    } else {
      assert (s + r)[..|s + r| - 1] == s + r[..|r| - 1];
      PickedAppend(h, s, r[..|r| - 1]);
    }
  }

  lemma PickedOne(h: Memory, c: Ptr)
    requires c in h
    ensures Picked(h, [c]) == if h[c].data.selected then [c] else []
  {
    assert [c][..0] == [];
  }

  lemma PickedSplit(h: Memory, b: seq<Ptr>, c: Ptr, below: seq<Ptr>, rest: seq<Ptr>)
    requires c in h
    ensures var own := if h[c].data.selected then [c] else [];
      && Picked(h, b + ([c] + below)) == Picked(h, b) + own + Picked(h, below)
      && Picked(h, b + ([c] + below + rest)) == Picked(h, b) + own + Picked(h, below) + Picked(h, rest)
  {
    hide Picked;
    PickedAppend(h, b, [c] + below);
    PickedAppend(h, [c], below);
    PickedAppend(h, b + ([c] + below), rest);
    assert b + ([c] + below) + rest == b + ([c] + below + rest);
    PickedOne(h, c);
    var own := if h[c].data.selected then [c] else [];
    assert Picked(h, b) + (own + Picked(h, below)) == Picked(h, b) + own + Picked(h, below);
  }

  lemma {:induction false} PickedMembers(h: Memory, s: seq<Ptr>, x: Ptr)
    requires x in Picked(h, s)
    ensures x in s && x in h && h[x].data.selected
    decreases |s|
  {
    if x in Picked(h, s[..|s| - 1]) { PickedMembers(h, s[..|s| - 1], x); }
  }

  lemma PickedIs(h: Memory, t: Shape, x: Ptr)
    requires HeapOk(h, t) && x in Picked(h, Rows(t, h.Keys, t.root, 0))
    ensures x in t.par && x in h && h[x].data.selected
  {
    hide Picked, Rows;
    var r := Rows(t, h.Keys, t.root, 0);
    PickedMembers(h, r, x);
    var k :| 0 <= k < |r| && r[k] == x;
    RowsAreNodes(t, h.Keys, t.root, 0, k);
  }

  lemma WholeBelow(t: Shape, all: set<Ptr>, c: Ptr)
    requires ShapeOk(t) && c in t.kids && c in all
    ensures Below(t, all, c) == Rows(t, all, c, 0)
  {
  }

  lemma SelectedNothing(h: Memory, sel: Ptr)
    ensures SelectedAs(h, h, [], sel)
  {
  }

  lemma SelectedOne(h: Memory, n: Ptr, sel: Ptr)
    requires n in h
    ensures SelectedAs(h, h[n := h[n].(data := h[n].data.(selected := n == sel))], [n], sel)
  {
  }

  lemma SelectedKeeps(h: Memory, g: Memory, r: seq<Ptr>, sel: Ptr)
    requires SelectedAs(h, g, r, sel)
    ensures SameTree(h, g)
  {
    forall n | n in h ensures SameLinks(h[n], g[n]) {
      if n in r {}
    }
  }

  lemma SelectedThen(h: Memory, g: Memory, f: Memory, r: seq<Ptr>, s: seq<Ptr>, sel: Ptr)
    requires SelectedAs(h, g, r, sel) && SelectedAs(g, f, s, sel)
    ensures SelectedAs(h, f, r + s, sel)
  {
  }

  lemma SelectedIs(h: Memory, t: Shape, sel: Ptr)
    requires OnlySelected(h, t, sel)
    ensures forall n :: n in t.par ==> n in h && (h[n].data.selected <==> n == sel)
  {
  }

  lemma {:induction false} RowsAreTree(h: Memory, t: Shape, n: Ptr)
    requires HeapOk(h, t) && ShapeOk(t) && t.root in t.kids
    ensures n in Rows(t, h.Keys, t.root, 0) <==> n in t.par
    ensures n in t.par ==> n in h
  {
    hide Rows;
    var r := Rows(t, h.Keys, t.root, 0);
    if n in r {
      var k :| 0 <= k < |r| && r[k] == n;
      RowsAreNodes(t, h.Keys, t.root, 0, k);
    }
    if n in t.par { EveryNodeHasRow(t, h.Keys, n); }
  }

  lemma AllSelected(h: Memory, g: Memory, t: Shape, sel: Ptr)
    requires HeapOk(h, t) && SelectedAs(h, g, Rows(t, h.Keys, t.root, 0), sel)
    ensures OnlySelected(g, t, sel) && g == SelectionOf(h, t, sel)
  {
    hide Rows, HeapOk, ShapeOk;
    HeapShape(h, t);
    forall n
      ensures n in Rows(t, h.Keys, t.root, 0) <==> n in t.par
      ensures n in t.par ==> n in h
    {
      RowsAreTree(h, t, n);
    }
  }

  lemma SameTreeAsItself(h: Memory)
    ensures SameTree(h, h)
  {
  }

  // ---- Steps of the arrow keys ----

  /** What the pointers of a node say. */
  lemma SiblingOf(h: Memory, t: Shape, x: Ptr)
    requires HeapOk(h, t) && x in t.par
    ensures x in h && x in t.kids && t.par[x] in t.kids && h[x].data.parent == Some(t.par[x])
    ensures var i := IndexOf(t, x);
      h[x].prev == PrevOf(t.kids[t.par[x]], i) && h[x].next == ChildPtr(t.kids[t.par[x]], i + 1)
    ensures forall i :: 0 <= i < |t.kids[t.par[x]]| ==> t.kids[t.par[x]][i] in t.par && t.kids[t.par[x]][i] in t.kids
  {
    ParentOk(t, x);
    NextChild(h, t, t.par[x], IndexOf(t, x));
    forall i | 0 <= i < |t.kids[t.par[x]]| ensures t.kids[t.par[x]][i] in t.par && t.kids[t.par[x]][i] in t.kids {
      ChildAt(t, t.par[x], i);
    }
  }

  lemma UpCases(t: Shape, open: set<Ptr>, x: Ptr)
    requires ShapeOk(t) && x in t.par
    ensures var (n, i) := (t.par[x], IndexOf(t, x));
      Up(t, open, x) ==
        if i > 0 then (ChildAt(t, n, i - 1); Some(Deepest(t, open, t.kids[n][i - 1])))
        else if n != t.root then Some(n) else None
    ensures t.par[x] != t.root ==> t.par[x] in t.par
  {
    ParentOk(t, x);
  }

  lemma DeeperOnce(h: Memory, t: Shape, c: Ptr)
    requires HeapOk(h, t) && c in h && c in t.kids
    ensures Deepest(t, OpenOf(h), c) ==
      if h[c].data.expanded && h[c].data.children.Some? then
        (FirstChild(h, t, c); ChildAt(t, c, |t.kids[c]| - 1); Deepest(t, OpenOf(h), t.kids[c][|t.kids[c]| - 1]))
      else c
    ensures h[c].data.children.Some? <==> t.kids[c] != []
  {
    hide HeapOk, ShapeOk, Deepest;
    HeapShape(h, t);
    FirstChild(h, t, c);
    DeepestOnce(t, OpenOf(h), c);
  }

  lemma DownCases(h: Memory, t: Shape, x: Ptr)
    requires HeapOk(h, t) && x in t.par
    ensures x in h && x in t.kids
    ensures Down(t, OpenOf(h), x) ==
      if h[x].data.expanded && h[x].data.children.Some? then h[x].data.children else Skip(t, x)
    ensures h[x].data.children.Some? ==> h[x].data.children.value in t.par
  {
    ParentOk(t, x);
    FirstChild(h, t, x);
    if t.kids[x] != [] { ChildAt(t, x, 0); }
  }

  lemma ParentInTree(t: Shape, x: Ptr)
    requires ShapeOk(t) && x in t.par
    ensures t.par[x] in t.kids && (t.par[x] != t.root ==> t.par[x] in t.par)
  {
  }

  lemma SkipCases(h: Memory, t: Shape, x: Ptr)
    requires HeapOk(h, t) && x in t.par
    ensures x in h && h[x].data.parent == Some(t.par[x])
    ensures h[x].next.Some? ==> Skip(t, x) == h[x].next && h[x].next.value in t.par
    ensures h[x].next == None && t.par[x] == t.root ==> Skip(t, x) == None
    ensures h[x].next == None && t.par[x] != t.root ==>
      t.par[x] in t.par && t.par[x] in h && Skip(t, x) == Skip(t, t.par[x]) && t.birth[t.par[x]] < t.birth[x]
  {
    hide HeapOk, ShapeOk, Skip, IndexOf;
    HeapShape(h, t);
    ParentOk(t, x);
    ParentInTree(t, x);
    SiblingOf(h, t, x);
    SkipOnce(t, x);
    if IndexOf(t, x) + 1 < |t.kids[t.par[x]]| { ChildAt(t, t.par[x], IndexOf(t, x) + 1); }
  }

  /** Drawing places the rows. */
  lemma DrawnIsPlaced(h: Memory, g: Memory, r: seq<Ptr>, y: int)
    requires DrawnAs(h, g, r, y)
    ensures PlacedAt(g, r, y)
  {
    forall k | 0 <= k < |r| ensures r[k] in g && g[r[k]].data.lastDrawY == y + ROW_HEIGHT * k {
      assert IsDrawn(h, g, r[k], y + ROW_HEIGHT * k);
    }
  }

  /** The k-th row is hit exactly between its own height and 20 below it. */
  lemma HitIsRow(r: seq<Ptr>, y0: int, y: int, k: nat)
    requires k < |r| && Distinct(r)
    ensures Hit(r, y0, y) == [r[k]] <==> y0 + ROW_HEIGHT * k <= y < y0 + ROW_HEIGHT * (k + 1)
  {
    if Hit(r, y0, y) == [r[k]] {
      var j := (y - y0) / ROW_HEIGHT;
      assert r[j] == r[k];
      assert j == k;
    }
  }

  lemma NoHit(y0: int, y: int)
    ensures Hit([], y0, y) == []
  {
  }

  lemma HitSplit(r: seq<Ptr>, s: seq<Ptr>, y0: int, y: int)
    ensures Hit(r + s, y0, y) == Hit(r, y0, y) + Hit(s, y0 + ROW_HEIGHT * |r|, y)
    ensures Hit(r, y0, y) == [] || Hit(s, y0 + ROW_HEIGHT * |r|, y) == []
  {
    var rs := r + s;
    if y0 <= y < y0 + ROW_HEIGHT * |rs| {
      var k := (y - y0) / ROW_HEIGHT;
      if k < |r| {
        assert rs[k] == r[k];
      } else {
        assert rs[k] == s[k - |r|] && (y - (y0 + ROW_HEIGHT * |r|)) / ROW_HEIGHT == k - |r|;
      }
    }
  }

  lemma RowsOne(t: Shape, open: set<Ptr>, n: Ptr, i: nat)
    requires ShapeOk(t) && n in t.kids && i < |t.kids[n]|
    ensures t.kids[n][i] in t.kids
    ensures Rows(t, open, n, i) == [t.kids[n][i]] + Below(t, open, t.kids[n][i]) + Rows(t, open, n, i + 1)
    ensures RowsBefore(t, open, n, i + 1) == RowsBefore(t, open, n, i) + ([t.kids[n][i]] + Below(t, open, t.kids[n][i]))
  {
    ChildAt(t, n, i);
  }

  lemma ChildPlaced(h: Memory, b: seq<Ptr>, c: Ptr, below: seq<Ptr>, rest: seq<Ptr>, y0: int)
    requires PlacedAt(h, b + ([c] + below + rest), y0)
    ensures c in h && h[c].data.lastDrawY == y0 + ROW_HEIGHT * |b|
    ensures PlacedAt(h, below, y0 + ROW_HEIGHT * |b| + ROW_HEIGHT)
  {
    var all := b + ([c] + below + rest);
    assert all[|b|] == c;
    forall k | 0 <= k < |below|
      ensures below[k] in h && h[below[k]].data.lastDrawY == y0 + ROW_HEIGHT * |b| + ROW_HEIGHT + ROW_HEIGHT * k
    {
      assert all[|b| + 1 + k] == below[k];
    }
  }

  lemma ChildHit(b: seq<Ptr>, c: Ptr, below: seq<Ptr>, rest: seq<Ptr>, y0: int, y: int)
    ensures var yc := y0 + ROW_HEIGHT * |b|;
      && (yc <= y < yc + ROW_HEIGHT ==> Hit(b, y0, y) == [] && Hit(b + ([c] + below + rest), y0, y) == [c])
      && (!(yc <= y < yc + ROW_HEIGHT) ==>
            Hit(b + ([c] + below), y0, y) == Hit(b, y0, y) + Hit(below, yc + ROW_HEIGHT, y))
      && (Hit(b + ([c] + below), y0, y) != [] ==>
            Hit(b + ([c] + below + rest), y0, y) == Hit(b + ([c] + below), y0, y))
  {
    hide Hit;
    var yc := y0 + ROW_HEIGHT * |b|;
    HitSplit(b, [c] + below + rest, y0, y);
    HitSplit(b, [c] + below, y0, y);
    HitSplit([c], below, yc, y);
    HitSplit([c], below + rest, yc, y);
    HitSplit([c] + below, rest, yc, y);
    assert [c] + (below + rest) == [c] + below + rest;
    assert b + ([c] + below) + rest == b + ([c] + below + rest);
    HitSplit(b + ([c] + below), rest, y0, y);
    HitOne(c, yc, y);
  }

  lemma HitOne(c: Ptr, y0: int, y: int)
    ensures Hit([c], y0, y) == if y0 <= y < y0 + ROW_HEIGHT then [c] else []
  {
  }

  lemma DrawnKeys(h: Memory, g: Memory, r: seq<Ptr>, y: int)
    requires DrawnAs(h, g, r, y)
    ensures g.Keys == h.Keys
  {
  }
}
