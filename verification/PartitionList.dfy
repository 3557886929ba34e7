/**
 The doubly linked list of areas that gxsetup/partition.c edits in place:
 splitArea, the scan of driveDetected, the create branch of partEditor and the
 delete branch of partEdit.

 `heap` holds the list nodes that malloc has handed out and free has not taken
 back.  splitArea as written leaves the `prev` of the node after the split area
 pointing at the node it frees (`SplitAreaLeavesStalePrev` says exactly when);
 `Drive.Replace` adds the one assignment that repairs it.
 */
module PartitionList {
  import opened PartitionGeometry
  import opened Gpt
  import opened LinkedLists

  /** Partition: a list node holding an area. */
  type Nodes = Heap<Area>

  ghost predicate NextRight(heap: Nodes, q: seq<Ptr>, i: nat)
    requires i < |q|
  {
    q[i] in heap && heap[q[i]].next == NextOf(q, i)
  }

  ghost predicate PrevRight(heap: Nodes, q: seq<Ptr>, i: nat)
    requires i < |q|
  {
    q[i] in heap && heap[q[i]].prev == PrevOf(q, i)
  }

  ghost function AreaAt(heap: Nodes, p: Ptr): Area {
    if p in heap then heap[p].data else Free(0)
  }

  ghost function Areas(heap: Nodes, q: seq<Ptr>): (t: Table)
    ensures |t| == |q| && forall i :: 0 <= i < |q| ==> t[i] == AreaAt(heap, q[i])
  {
    seq(|q|, i requires 0 <= i < |q| => AreaAt(heap, q[i]))
  }

  // ----- splitArea

  /** The addresses malloc returns for the space before, the partition and the space after. */
  datatype Fresh = Fresh(head: Ptr, part: Ptr, tail: Ptr)

  predicate FreshIn(heap: Nodes, f: Fresh) {
    f.head !in heap && f.part !in heap && f.tail !in heap && f.head != f.part && f.part != f.tail && f.head != f.tail
  }

  /** Whatever is in use, malloc can return such addresses. */
  lemma {:induction false} MallocCan(heap: Nodes) returns (f: Fresh)
    ensures FreshIn(heap, f)
  {
    var n := AddressBeyond(heap.Keys);
    f := Fresh(n, n + 1, n + 2);
  }

  lemma {:induction false} AddressBeyond(used: set<Ptr>) returns (n: Ptr)
    ensures forall p :: p in used ==> p < n
    decreases |used|
  {
    n := 0;
    if used != {} {
      var q :| q in used;
      var m := AddressBeyond(used - {q});
      n := if q < m then m else q + 1;
      forall p | p in used ensures p < n {
        if p != q { assert p in used - {q}; }
      }
    }
  }

  /** The nodes that take the place of the split one. */
  function Middle(f: Fresh, hasHead: bool, hasTail: bool): seq<Ptr> {
    (if hasHead then [f.head] else []) + [f.part] + (if hasTail then [f.tail] else [])
  }

  /** The heap that splitArea leaves: new nodes, the old one freed, its neighbours untouched. */
  function SplitHeap(heap: Nodes, area: Ptr, off: nat, p: Area, f: Fresh): Nodes
    requires area in heap && p.Part? && off + p.size <= heap[area].data.size
  {
    var e := heap[area];
    var hasHead, hasTail := off != 0, off + p.size != e.data.size;
    var h1 := if hasHead then heap[f.head := Node(e.prev, Some(f.part), Free(off))] else heap;
    var h2 := h1[f.part := Node(if hasHead then Some(f.head) else e.prev, if hasTail then Some(f.tail) else e.next, p)];
    var h3 := if hasTail then h2[f.tail := Node(Some(f.part), e.next, Free(e.data.size - p.size - off))] else h2;
    h3 - {area}
  }

  function SplicedAt(q: seq<Ptr>, k: nat, mid: seq<Ptr>, i: nat): Ptr
    requires k < |q| && i < |q| - 1 + |mid|
  {
    if i < k then q[i] else if i < k + |mid| then mid[i - k] else q[i - |mid| + 1]
  }

  function Spliced(q: seq<Ptr>, k: nat, mid: seq<Ptr>): (r: seq<Ptr>)
    requires k < |q|
    ensures |r| == |q| - 1 + |mid| && forall i :: 0 <= i < |r| ==> r[i] == SplicedAt(q, k, mid, i)
  {
    q[..k] + mid + q[k + 1..]
  }

  /** What the caller of splitArea does with its result: point the node before, or the drive, at it. */
  function Relink(heap: Nodes, before: Option<Ptr>, head: Ptr): Nodes {
    if before.Some? && before.value in heap then heap[before.value := heap[before.value].(next := Some(head))] else heap
  }

  /** The assignment that the source leaves out. */
  function Repair(heap: Nodes, after: Option<Ptr>, last: Ptr): Nodes {
    if after.Some? && after.value in heap then heap[after.value := heap[after.value].(prev := Some(last))] else heap
  }

  /** Node by node, what a split and the relinking leave in the heap. */
  lemma SplitNode(heap: Nodes, first: Option<Ptr>, q: seq<Ptr>, k: nat, off: nat, p: Area, f: Fresh, i: nat)
    requires Linked(heap, first, q) && k < |q| && FreshIn(heap, f) && q[k] in heap
    requires p.Part? && heap[q[k]].data.Free? && off + p.size <= heap[q[k]].data.size
    requires i < |q| && i != k
    ensures var h := Relink(SplitHeap(heap, q[k], off, p, f), PrevOf(q, k), Middle(f, off != 0, false)[0]);
            && q[i] in heap && q[i] in h && heap[q[i]].prev == h[q[i]].prev && h[q[i]].data == heap[q[i]].data
            && h[q[i]].next == if i + 1 == k then Some(Middle(f, off != 0, false)[0]) else NextOf(q, i)
  {
    hide Linked, Distinct;
    NodeLinks(heap, first, q, i);
    NodeLinks(heap, first, q, k);
    DistinctAt(q, i, k);
    if k > 0 {
      NodeLinks(heap, first, q, k - 1);
      if i != k - 1 { DistinctAt(q, i, k - 1); }
    }
  }

  lemma SplitMiddle(heap: Nodes, first: Option<Ptr>, q: seq<Ptr>, k: nat, off: nat, p: Area, f: Fresh, i: nat)
    requires Linked(heap, first, q) && k < |q| && FreshIn(heap, f) && q[k] in heap
    requires p.Part? && heap[q[k]].data.Free? && off + p.size <= heap[q[k]].data.size
    requires i < |Middle(f, off != 0, off + p.size != heap[q[k]].data.size)|
    ensures var mid := Middle(f, off != 0, off + p.size != heap[q[k]].data.size);
            var h := Relink(SplitHeap(heap, q[k], off, p, f), PrevOf(q, k), mid[0]);
            && mid[i] in h && h[mid[i]].data == Pieces(heap[q[k]].data.size, off, p)[i]
            && h[mid[i]].next == (if i == |mid| - 1 then NextOf(q, k) else Some(mid[i + 1]))
            && h[mid[i]].prev == (if i == 0 then PrevOf(q, k) else Some(mid[i - 1]))
  {
    hide Linked, Distinct;
    NodeLinks(heap, first, q, k);
    if k > 0 { NodeLinks(heap, first, q, k - 1); }
  }

  lemma SplicedDistinct(q: seq<Ptr>, k: nat, mid: seq<Ptr>)
    requires Distinct(q) && Distinct(mid) && k < |q| && forall i, j :: 0 <= i < |q| && 0 <= j < |mid| ==> q[i] != mid[j]
    ensures Distinct(Spliced(q, k, mid))
  {
  }

  /** The new nodes, the new list and the heap after splitArea and the caller's assignment. */
  ghost function SplitMid(heap: Nodes, q: seq<Ptr>, k: nat, off: nat, p: Area, f: Fresh): seq<Ptr>
    requires k < |q|
  {
    Middle(f, off != 0, off + p.size != AreaAt(heap, q[k]).size)
  }

  ghost function SplitResult(heap: Nodes, q: seq<Ptr>, k: nat, off: nat, p: Area, f: Fresh): Nodes
    requires k < |q| && q[k] in heap && p.Part? && off + p.size <= heap[q[k]].data.size
  {
    Relink(SplitHeap(heap, q[k], off, p, f), PrevOf(q, k), Middle(f, off != 0, false)[0])
  }

  ghost predicate CanSplit(heap: Nodes, first: Option<Ptr>, q: seq<Ptr>, k: nat, off: nat, p: Area, f: Fresh) {
    && Linked(heap, first, q) && k < |q| && FreshIn(heap, f) && q[k] in heap
    && p.Part? && heap[q[k]].data.Free? && off + p.size <= heap[q[k]].data.size
  }

  lemma SplitLinks(heap: Nodes, first: Option<Ptr>, q: seq<Ptr>, k: nat, off: nat, p: Area, f: Fresh, i: nat)
    requires CanSplit(heap, first, q, k, off, p, f) && i < |q| - 1 + |SplitMid(heap, q, k, off, p, f)|
    ensures var mid, h := SplitMid(heap, q, k, off, p, f), SplitResult(heap, q, k, off, p, f);
            var r := Spliced(q, k, mid);
            && r[i] in h && NextRight(h, r, i) && (i != k + |mid| ==> PrevRight(h, r, i))
            && (i == k + |mid| ==> h[r[i]].prev == Some(q[k]))
            && AreaAt(h, r[i]) == Split(Areas(heap, q), k, off, p)[i]
  {
    var mid := SplitMid(heap, q, k, off, p, f);
    if k <= i < k + |mid| {
      SplitLinksInside(heap, first, q, k, off, p, f, i);
    } else {
      SplitLinksOutside(heap, first, q, k, off, p, f, i);
      AreaOutside(heap, first, q, k, off, p, f, i);
    }
  }

  lemma {:induction false} SplitLinksOutside(
    heap: Nodes, first: Option<Ptr>, q: seq<Ptr>, k: nat, off: nat, p: Area, f: Fresh, i: nat
  )
    requires CanSplit(heap, first, q, k, off, p, f) && i < |q| - 1 + |SplitMid(heap, q, k, off, p, f)|
    requires !(k <= i < k + |SplitMid(heap, q, k, off, p, f)|)
    ensures var mid, h := SplitMid(heap, q, k, off, p, f), SplitResult(heap, q, k, off, p, f);
            var r := Spliced(q, k, mid);
            && r[i] in h && NextRight(h, r, i) && (i != k + |mid| ==> PrevRight(h, r, i))
            && (i == k + |mid| ==> h[r[i]].prev == Some(q[k]))
            && AreaAt(h, r[i]) == AreaAt(heap, q[if i < k then i else i - |mid| + 1])
  {
    hide Linked, Distinct, Relink, SplitHeap;
    var mid := SplitMid(heap, q, k, off, p, f);
    var j := if i < k then i else i - |mid| + 1;
    SplitNode(heap, first, q, k, off, p, f, j);
    NodeLinks(heap, first, q, j);
  }

  lemma {:induction false} AreaOutside(
    heap: Nodes, first: Option<Ptr>, q: seq<Ptr>, k: nat, off: nat, p: Area, f: Fresh, i: nat
  )
    requires CanSplit(heap, first, q, k, off, p, f) && i < |q| - 1 + |SplitMid(heap, q, k, off, p, f)|
    requires !(k <= i < k + |SplitMid(heap, q, k, off, p, f)|)
    ensures var j := if i < k then i else i - |SplitMid(heap, q, k, off, p, f)| + 1;
            i < |Split(Areas(heap, q), k, off, p)| && Split(Areas(heap, q), k, off, p)[i] == AreaAt(heap, q[j])
  {
    hide Linked, Distinct, SplitHeap, Relink;
  }

  lemma SplitLinksInside(heap: Nodes, first: Option<Ptr>, q: seq<Ptr>, k: nat, off: nat, p: Area, f: Fresh, i: nat)
    requires CanSplit(heap, first, q, k, off, p, f) && k <= i < k + |SplitMid(heap, q, k, off, p, f)|
    ensures var mid, h := SplitMid(heap, q, k, off, p, f), SplitResult(heap, q, k, off, p, f);
            var r := Spliced(q, k, mid);
            && r[i] in h && NextRight(h, r, i) && PrevRight(h, r, i)
            && AreaAt(h, r[i]) == Split(Areas(heap, q), k, off, p)[i]
  {
    hide Linked, Distinct, Relink, SplitHeap;
    SplitMiddle(heap, first, q, k, off, p, f, i - k);
  }

  lemma MiddleFresh(heap: Nodes, first: Option<Ptr>, q: seq<Ptr>, k: nat, off: nat, p: Area, f: Fresh)
    requires CanSplit(heap, first, q, k, off, p, f)
    ensures Distinct(Spliced(q, k, SplitMid(heap, q, k, off, p, f)))
    ensures q[k] !in SplitResult(heap, q, k, off, p, f)
    ensures |SplitMid(heap, q, k, off, p, f)| == |Pieces(heap[q[k]].data.size, off, p)| > 0
    ensures SplitMid(heap, q, k, off, p, f)[0] == Middle(f, off != 0, false)[0]
  {
    hide Linked, Distinct;
    LinkedInHeap(heap, first, q);
    NodeLinks(heap, first, q, k);
    MiddleDistinct(f, off != 0, off + p.size != AreaAt(heap, q[k]).size);
    SplicedDistinct(q, k, SplitMid(heap, q, k, off, p, f));
    if k > 0 {
      NodeLinks(heap, first, q, k - 1);
      DistinctAt(q, k - 1, k);
    }
  }

  lemma MiddleDistinct(f: Fresh, hasHead: bool, hasTail: bool)
    requires f.head != f.part && f.part != f.tail && f.head != f.tail
    ensures Distinct(Middle(f, hasHead, hasTail))
    ensures forall i :: 0 <= i < |Middle(f, hasHead, hasTail)| ==>
      Middle(f, hasHead, hasTail)[i] in {f.head, f.part, f.tail}
  {
  }

  /** Every `next` of the new list is right, and every `prev` but the one after the new nodes. */
  lemma SplitAllLinks(heap: Nodes, first: Option<Ptr>, q: seq<Ptr>, k: nat, off: nat, p: Area, f: Fresh)
    requires CanSplit(heap, first, q, k, off, p, f)
    ensures var mid, h := SplitMid(heap, q, k, off, p, f), SplitResult(heap, q, k, off, p, f);
            var r := Spliced(q, k, mid);
            && |mid| > 0
            && (forall i :: 0 <= i < |r| ==> NextRight(h, r, i))
            && (forall i :: 0 <= i < |r| && i != k + |mid| ==> PrevRight(h, r, i))
            && (k + 1 < |q| ==> r[k + |mid|] in h && h[r[k + |mid|]].prev == Some(q[k]))
            && Areas(h, r) == Split(Areas(heap, q), k, off, p)
  {
    hide Linked, NextRight, PrevRight, SplitMid, SplitResult;
    var mid, h := SplitMid(heap, q, k, off, p, f), SplitResult(heap, q, k, off, p, f);
    var r := Spliced(q, k, mid);
    MiddleFresh(heap, first, q, k, off, p, f);
    forall i | 0 <= i < |r|
      ensures NextRight(h, r, i) && (i != k + |mid| ==> PrevRight(h, r, i))
      ensures i == k + |mid| ==> r[i] in h && h[r[i]].prev == Some(q[k])
      ensures AreaAt(h, r[i]) == Split(Areas(heap, q), k, off, p)[i]
    {
      SplitLinks(heap, first, q, k, off, p, f, i);
    }
  }

  /**
   splitArea as written leaves the `prev` of the node after the split area
   pointing at the node it has freed, so the list it leaves is sound exactly
   when the split area was the last.
   */
  lemma SplitAreaLeavesStalePrev(heap: Nodes, first: Option<Ptr>, q: seq<Ptr>, k: nat, off: nat, p: Area, f: Fresh)
    requires CanSplit(heap, first, q, k, off, p, f)
    ensures var mid, h := SplitMid(heap, q, k, off, p, f), SplitResult(heap, q, k, off, p, f);
            var r := Spliced(q, k, mid);
            && q[k] !in h
            && (k + 1 < |q| ==> r[k + |mid|] == q[k + 1] && q[k + 1] in h && h[q[k + 1]].prev == Some(q[k]))
            && (Linked(h, HeadOf(r), r) <==> k + 1 == |q|)
  {
    hide Split, SplitMid, SplitResult;
    var mid, h := SplitMid(heap, q, k, off, p, f), SplitResult(heap, q, k, off, p, f);
    var r := Spliced(q, k, mid);
    MiddleFresh(heap, first, q, k, off, p, f);
    SplitAllLinks(heap, first, q, k, off, p, f);
    StaleIsWrong(heap, first, q, k, off, p, f);
    if k + 1 < |q| {
      assert PrevOf(r, k + |mid|) == Some(mid[|mid| - 1]);
      assert r[k + |mid|] == q[k + 1];
      assert h[r[k + |mid|]].prev != PrevOf(r, k + |mid|);
    } else {
      AllLinked(h, r);
    }
  }

  /** For instance where unallocated space in front of a partition is split. */
  lemma StalePrevAfterSplit() returns (h: Nodes, r: seq<Ptr>)
    ensures
      var p := Part(2, Unused, [], false, [], NEW_TYPE);
      var heap: Nodes := map[0 := Node(None, Some(1), Free(4)), 1 := Node(Some(0), None, p)];
      && CanSplit(heap, Some(0), [0, 1], 0, 0, p, Fresh(2, 3, 4))
      && h == SplitResult(heap, [0, 1], 0, 0, p, Fresh(2, 3, 4))
    ensures r == [3, 4, 1] && 0 !in h && 1 in h && h[1].prev == Some(0)
    ensures !Linked(h, HeadOf(r), r)
  {
    var p, f := Part(2, Unused, [], false, [], NEW_TYPE), Fresh(2, 3, 4);
    var heap: Nodes := map[0 := Node(None, Some(1), Free(4)), 1 := Node(Some(0), None, p)];
    h := SplitResult(heap, [0, 1], 0, 0, p, f);
    SplitAreaLeavesStalePrev(heap, Some(0), [0, 1], 0, 0, p, f);
    r := Spliced([0, 1], 0, SplitMid(heap, [0, 1], 0, 0, p, f));
    assert r == [3, 4, 1];
  }

  lemma AllLinked(h: Nodes, r: seq<Ptr>)
    requires Distinct(r) && forall i :: 0 <= i < |r| ==> NextRight(h, r, i) && PrevRight(h, r, i)
    ensures Linked(h, HeadOf(r), r)
  {
    forall i | 0 <= i < |r| ensures r[i] in h && h[r[i]].prev == PrevOf(r, i) && h[r[i]].next == NextOf(r, i) {
      assert NextRight(h, r, i) && PrevRight(h, r, i);
    }
  }

  lemma StaleIsWrong(heap: Nodes, first: Option<Ptr>, q: seq<Ptr>, k: nat, off: nat, p: Area, f: Fresh)
    requires CanSplit(heap, first, q, k, off, p, f)
    ensures q[k] !in SplitMid(heap, q, k, off, p, f)
  {
  }

  /** With the missing assignment the list is sound again, and holds the split table. */
  lemma RepairedSplit(heap: Nodes, first: Option<Ptr>, q: seq<Ptr>, k: nat, off: nat, p: Area, f: Fresh)
    requires CanSplit(heap, first, q, k, off, p, f)
    ensures var mid, r := SplitMid(heap, q, k, off, p, f), Spliced(q, k, SplitMid(heap, q, k, off, p, f));
            |mid| > 0
            && var h := Repair(SplitResult(heap, q, k, off, p, f), NextOf(q, k), mid[|mid| - 1]);
               Linked(h, HeadOf(r), r) && Areas(h, r) == Split(Areas(heap, q), k, off, p)
    ensures k + 1 < |q| ==> q[k + 1] in SplitResult(heap, q, k, off, p, f)
  {
    hide Split, SplitMid, SplitResult, Linked, Areas;
    var mid, s := SplitMid(heap, q, k, off, p, f), SplitResult(heap, q, k, off, p, f);
    var r := Spliced(q, k, mid);
    MiddleFresh(heap, first, q, k, off, p, f);
    SplitAllLinks(heap, first, q, k, off, p, f);
    RepairLinks(s, r, k + |mid|, Repair(s, NextOf(q, k), mid[|mid| - 1]));
  }

  /** One wrong `prev` set right. */
  lemma RepairLinks(s: Nodes, r: seq<Ptr>, j: nat, h: Nodes)
    requires Distinct(r) && 0 < j && forall i :: 0 <= i < |r| ==> NextRight(s, r, i) && (i != j ==> PrevRight(s, r, i))
    requires h == if j < |r| && r[j] in s then s[r[j] := s[r[j]].(prev := PrevOf(r, j))] else s
    ensures Linked(h, HeadOf(r), r) && Areas(h, r) == Areas(s, r)
  {
    forall i | 0 <= i < |r|
      ensures NextRight(h, r, i) && PrevRight(h, r, i) && AreaAt(h, r[i]) == AreaAt(s, r[i])
    {
      assert NextRight(s, r, i);
      if i != j {
        assert PrevRight(s, r, i);
        if j < |r| { DistinctAt(r, i, j); }
      }
    }
    AllLinked(h, r);
  }

  // ----- deleting

  /** Growing node p to size and taking node n, which is freed, out of the list. */
  function Engulf(heap: Nodes, p: Ptr, n: Ptr, size: nat): Nodes
    requires n in heap
  {
    var u := Unlink(heap, n);
    if p in u then u[p := u[p].(data := Free(size))] - {n} else u
  }

  function DropAt(t: Table, n: nat): Table
    requires n < |t|
  {
    t[..n] + t[n + 1..]
  }

  /** The two engulfing steps of the delete branch, for a neighbour n of node k. */
  lemma EngulfLinks(heap: Nodes, first: Option<Ptr>, q: seq<Ptr>, k: nat, n: nat, size: nat)
    requires Linked(heap, first, q) && k < |q| && n < |q| && n != k
    ensures q[k] in heap && q[n] in heap
    ensures var j := if n < k then k - 1 else k;
            var h := Engulf(heap, q[k], q[n], size);
            && Linked(h, if n == 0 then NextOf(q, 0) else first, Without(q, n))
            && Areas(h, Without(q, n)) == DropAt(Areas(heap, q), n)[j := Free(size)]
  {
    hide Linked, Unlink;
    LinkedInHeap(heap, first, q);
    UnlinkLinks(heap, first, q, n);
    NodeLinks(heap, first, q, n);
    var u, t, f := Unlink(heap, q[n]), Without(q, n), if n == 0 then NextOf(q, 0) else first;
    LinkedInHeap(u, f, t);
    var h := Engulf(heap, q[k], q[n], size);
    var j := if n < k then k - 1 else k;
    assert t[j] == q[k];
    forall i | 0 <= i < |t|
      ensures t[i] in h && h[t[i]].prev == u[t[i]].prev && h[t[i]].next == u[t[i]].next
      ensures AreaAt(h, t[i]) == if i == j then Free(size) else AreaAt(heap, t[i])
    {
      DistinctAt(q, if i < n then i else i + 1, n);
      if i != j { DistinctAt(q, if i < n then i else i + 1, k); }
    }
    LinkedAgree(u, h, f, t);
  }

  /** A table whose unallocated area k has swallowed the one after it, or the one before it, if that is unallocated. */
  function EngulfedNext(t: Table, k: nat): Table
    requires k < |t|
  {
    if k + 1 < |t| && t[k + 1].Free? then DropAt(t, k + 1)[k := Free(t[k].size + t[k + 1].size)] else t
  }

  function EngulfedPrev(t: Table, k: nat): Table
    requires k < |t|
  {
    if k > 0 && t[k - 1].Free? then DropAt(t, k - 1)[k - 1 := Free(t[k].size + t[k - 1].size)] else t
  }

  /** The table after the area itself and then each free neighbour has been dealt with. */
  lemma DeleteInSteps(t: Table, k: nat)
    requires k < |t| && t[k].Part? && Canonical(t)
    ensures var t1 := t[k := Free(t[k].size)];
            var t2 := EngulfedNext(t1, k);
            var t3 := EngulfedPrev(t2, k);
            t3 == Delete(t, k)
  {
    SizesPositive(t);
    hide Canonical, DropAt;
    var t1 := t[k := Free(t[k].size)];
    var a, b := t[..k], t[RightEnd(t, k)..];
    if RightEnd(t, k) == k + 2 {
      DropBehind(t, k, t1[k], Free(t1[k].size + t1[k + 1].size));
    } else {
      assert t1 == a + [t1[k]] + t[k + 1..];
    }
    var t2 := EngulfedNext(t1, k);
    assert t2 == a + [t2[k]] + b;
    if LeftEnd(t, k) == k - 1 {
      DropBefore(a, t2[k], b, Free(t2[k].size + t2[k - 1].size));
      assert a[..k - 1] == t[..k - 1];
    }
  }

  lemma DropBehind(t: Table, k: nat, x: Area, y: Area)
    requires k + 1 < |t|
    ensures DropAt(t[k := x], k + 1)[k := y] == t[..k] + [y] + t[k + 2..]
  {
  }

  lemma DropBefore(a: Table, x: Area, b: Table, y: Area)
    requires a != []
    ensures DropAt(a + [x] + b, |a| - 1)[|a| - 1 := y] == a[..|a| - 1] + [y] + b
  {
  }

  // ----- the drive

  /** What the tables of a drive with that header keep to. */
  ghost predicate WithinHeader(t: Table, size: nat, numPartEnts: nat) {
    Canonical(t) && Total(t) == size && Writable(t) && PartCount(t) <= numPartEnts
  }

  /** How many megabytes of the usable space come before the end of an entry. */
  function EndMB(e: GptEntry): int { e.startLBA / LBA_PER_MB - 1 + (e.endLBA - e.startLBA + 1) / LBA_PER_MB }

  ghost predicate IsAreaOf(t: Table, k: int, e: GptEntry) {
    0 <= k < |t| && IsLoadedFrom(t[k], e) && Total(t[..k]) == e.startLBA / LBA_PER_MB - 1
  }

  /**
   The partitions of a table are the entries in use that end within the usable space,
   each at its own place.
   */
  ghost predicate IsTableOf(t: Table, es: seq<GptEntry>, size: nat) {
    && (forall i :: 0 <= i < |es| && es[i].typ != NULL_TYPE && EndMB(es[i]) <= size ==>
          exists k :: IsAreaOf(t, k, es[i]))
    && (forall k :: 0 <= k < |t| && t[k].Part? ==>
          exists i :: 0 <= i < |es| && es[i].typ != NULL_TYPE && IsAreaOf(t, k, es[i]))
  }

  /** The entry of partition k stands behind those of the partitions before it; the first area is at this MB. */
  ghost predicate IsWrittenAt(es: seq<GptEntry>, t: Table, k: nat, offset: nat)
    requires k < |t|
  {
    Slot(t, k) < |es| && IsWrittenFor(es[Slot(t, k)], t[k], offset + Total(t[..k]))
  }

  /** What the editor can do to a partition besides deleting it. */
  datatype Edit = CycleUse | ToggleFormat | Type(c: nat) | Erase

  const MAX_TYPED := 30

  function Edited(p: Area, edit: Edit): Area
    requires p.Part?
  {
    match edit
    case CycleUse => p.(use := if p.use == Unused then Gxfs else Unused)
    case ToggleFormat => p.(format := !p.format)
    case Type(c) => if 32 <= c <= 127 && |p.mntpoint| < MAX_TYPED then p.(mntpoint := p.mntpoint + [c]) else p
    case Erase => if p.mntpoint == [] then p else p.(mntpoint := p.mntpoint[..|p.mntpoint| - 1])
  }

  function NewPart(size: nat, partid: Guid): Area {
    Part(size, Unused, [], false, partid, NEW_TYPE)
  }

  /** Each key changes the one field it is for; a typed character can be erased again. */
  lemma EditIsExact(p: Area, edit: Edit)
    requires p.Part?
    ensures var q := Edited(p, edit);
      && q.Part? && q.size == p.size && q.partid == p.partid && q.origtype == p.origtype
      && (q.use != p.use <==> edit == CycleUse) && (q.format != p.format <==> edit == ToggleFormat)
      && (edit == CycleUse || edit == ToggleFormat ==> q.mntpoint == p.mntpoint)
    ensures edit.Type? && 32 <= edit.c <= 127 && |p.mntpoint| < 30 ==>
      Edited(p, edit).mntpoint == p.mntpoint + [edit.c] && Edited(Edited(p, edit), Erase) == p
    ensures edit.Type? && !(32 <= edit.c <= 127 && |p.mntpoint| < 30) ==> Edited(p, edit) == p
    ensures edit == Erase ==>
      if p.mntpoint == [] then Edited(p, edit) == p
      else Edited(p, edit).mntpoint + [p.mntpoint[|p.mntpoint| - 1]] == p.mntpoint
  {
  }

  class Drive {
    /** The space that the header declares, in MB, and its number of entries. */
    const size: nat
    const numPartEnts: nat
    var heap: Nodes
    var parts: Option<Ptr>
    ghost var nodes: seq<Ptr>

    ghost predicate Valid()
      reads this
    {
      size > 0 && Linked(heap, parts, nodes) && WithinHeader(Table(), size, numPartEnts)
    }

    ghost function Table(): Table
      reads this
    {
      Areas(heap, nodes)
    }

    /** An empty table: one unallocated area, as newPartTable and driveDetected make it. */
    constructor (size: nat, numPartEnts: nat, p: Ptr)
      requires size > 0
      ensures Valid() && Table() == [Free(size)] && nodes == [p]
      ensures this.size == size && this.numPartEnts == numPartEnts
      ensures heap == map[p := Node(None, None, Free(size))]
    {
      this.size := size;
      this.numPartEnts := numPartEnts;
      heap := map[p := Node(None, None, Free(size))];
      parts := Some(p);
      nodes := [p];
      new;
      OneArea(Free(size));
    }

    /** splitArea: returns the node that takes the place of the area. */
    method SplitArea(area: Ptr, off: nat, p: Area, f: Fresh) returns (head: Ptr)
      requires area in heap && FreshIn(heap, f) && p.Part? && off + p.size <= heap[area].data.size
      modifies this`heap
      ensures old(heap)[area].data.Part? ==> head == area && heap == old(heap)
      ensures old(heap)[area].data.Free? ==>
                heap == SplitHeap(old(heap), area, off, p, f) && head == (if off == 0 then f.part else f.head)
    {
      if heap[area].data.Part? {
        return area;
      }
      var e := heap[area];
      var prev := e.prev;
      head := f.part;
      if off != 0 {
        head := f.head;
        heap := heap[f.head := Node(e.prev, Some(f.part), Free(off))];
        prev := Some(f.head);
      }
      if off + p.size == e.data.size {
        heap := heap[f.part := Node(prev, e.next, p)];
      } else {
        heap := heap[f.part := Node(prev, Some(f.tail), p)];
        heap := heap[f.tail := Node(Some(f.part), e.next, Free(e.data.size - p.size - off))];
      }
      heap := heap - {area};
    }

    /** splitArea and what its callers do with the result, and the repair of the stale `prev`. */
    method Replace(ghost k: nat, area: Ptr, off: nat, p: Area, f: Fresh)
      requires Valid() && k < |nodes| && nodes[k] == area && FreshIn(heap, f)
      requires Table()[k].Free? && p.Part? && CanWrite(p) && off + p.size <= Table()[k].size
      requires PartCount(Table()) < numPartEnts
      modifies this
      ensures Valid() && Table() == Split(old(Table()), k, off, p)
    {
      hide Linked, Canonical, Split, SplitHeap, Writable, PartCount;
      NodeLinks(heap, parts, nodes, k);
      RepairedSplit(heap, parts, nodes, k, off, p, f);
      SplitOk(Table(), k, off, p, size, numPartEnts);
      MiddleFresh(heap, parts, nodes, k, off, p, f);
      LinkedInHeap(heap, parts, nodes);
      SplitKeeps(heap, nodes, k, off, p, f);
      ghost var mid := SplitMid(heap, nodes, k, off, p, f);
      var before, after, areaSize := heap[area].prev, heap[area].next, heap[area].data.size;
      ghost var h0 := heap;
      var head := SplitArea(area, off, p, f);
      if before != None {
        heap := heap[before.value := heap[before.value].(next := Some(head))];
      } else {
        parts := Some(head);
      }
      assert heap == SplitResult(h0, nodes, k, off, p, f);
      var last := if off + p.size == areaSize then f.part else f.tail;
      if after != None {
        heap := heap[after.value := heap[after.value].(prev := Some(last))];
      }
      assert heap == Repair(SplitResult(h0, nodes, k, off, p, f), NextOf(nodes, k), mid[|mid| - 1]);
      ghost var r := Spliced(nodes, k, mid);
      assert parts == HeadOf(r);
      nodes := r;
    }

    /** One engulfing step: `keep` swallows its free neighbour `gone`. */
    method EngulfNeighbour(ghost k: nat, ghost n: nat, keep: Ptr, gone: Ptr, size: nat)
      requires Linked(heap, parts, nodes) && k < |nodes| && n < |nodes| && (n == k + 1 || k == n + 1)
      requires nodes[k] == keep && nodes[n] == gone
      modifies this
      ensures Linked(heap, parts, nodes) && nodes == Without(old(nodes), n)
      ensures Table() == DropAt(old(Table()), n)[if n < k then k - 1 else k := Free(size)]
    {
      hide Linked;
      NodeLinks(heap, parts, nodes, n);
      NodeLinks(heap, parts, nodes, k);
      EngulfLinks(heap, parts, nodes, k, n, size);
      ghost var h := heap;
      var e := heap[gone];
      if e.prev.Some? {
        heap := heap[e.prev.value := heap[e.prev.value].(next := e.next)];
      } else {
        parts := e.next;
      }
      if e.next.Some? {
        heap := heap[e.next.value := heap[e.next.value].(prev := e.prev)];
      }
      heap := heap[keep := heap[keep].(data := Free(size))];
      heap := heap - {gone};
      assert heap == Engulf(h, keep, gone, size);
      nodes := Without(nodes, n);
    }

    /** The delete branch of partEdit. */
    method DeletePartition(ghost k: nat, selected: Ptr)
      requires Valid() && k < |nodes| && nodes[k] == selected && Table()[k].Part?
      modifies this
      ensures Valid() && Table() == Delete(old(Table()), k)
    {
      hide Linked, Canonical, Delete, DropAt, Without, Writable, PartCount;
      NodeLinks(heap, parts, nodes, k);
      ghost var t := Table();
      DeleteInSteps(t, k);
      DeleteOk(t, k, size, numPartEnts);
      RelabelLinks(heap, parts, nodes, k, Free(t[k].size));
      heap := heap[selected := heap[selected].(data := Free(heap[selected].data.size))];
      EngulfNext(k, selected);
      EngulfPrev(k, selected);
    }

    /** An unallocated area swallows the one after it. */
    method EngulfNext(ghost k: nat, selected: Ptr)
      requires Linked(heap, parts, nodes) && k < |nodes| && nodes[k] == selected && Table()[k].Free?
      modifies this
      ensures Linked(heap, parts, nodes) && k < |nodes| && nodes[k] == selected && Table()[k].Free?
      ensures var t := old(Table());
              Table() == EngulfedNext(t, k)
    {
      hide Linked, Without;
      ghost var q := nodes;
      NodeLinks(heap, parts, nodes, k);
      var next := heap[selected].next;
      if next.Some? && heap[next.value].data.Free? {
        EngulfNeighbour(k, k + 1, selected, next.value, heap[selected].data.size + heap[next.value].data.size);
        WithoutBefore(q, k + 1, k);
      }
    }

    /** It swallows the one before it. */
    method EngulfPrev(ghost k: nat, selected: Ptr)
      requires Linked(heap, parts, nodes) && k < |nodes| && nodes[k] == selected && Table()[k].Free?
      modifies this
      ensures Linked(heap, parts, nodes)
      ensures var t := old(Table());
              Table() == EngulfedPrev(t, k)
    {
      hide Linked, DropAt, Without;
      NodeLinks(heap, parts, nodes, k);
      if k > 0 { NodeLinks(heap, parts, nodes, k - 1); }
      var prev := heap[selected].prev;
      if prev.Some? && heap[prev.value].data.Free? {
        EngulfNeighbour(k, k - 1, selected, prev.value, heap[selected].data.size + heap[prev.value].data.size);
      }
    }

    /** The count at the start of newPartDialog. */
    method CountPartitions() returns (numParts: nat)
      requires Valid()
      ensures numParts == PartCount(Table())
    {
      hide Linked, Canonical;
      LinkedInHeap(heap, parts, nodes);
      numParts := 0;
      var part := parts;
      ghost var k := 0;
      while part != None
        invariant k <= |nodes| && part == HeadOf(nodes[k..]) && numParts == Slot(Table(), k)
        decreases |nodes| - k
      {
        NodeLinks(heap, parts, nodes, k);
        assert nodes[k..][1..] == nodes[k + 1..];
        if heap[part.value].data.Part? { numParts := numParts + 1; }
        part := heap[part.value].next;
        k := k + 1;
      }
    }

    /**
     The create branch of partEditor: a new partition at the start or at the end of
     an unallocated area. newPartDialog refuses one more than there are entries, and
     takes no size that the area does not have.
     */
    method CreatePartition(ghost k: nat, selected: Ptr, atEnd: bool, newSize: nat, partid: Guid, f: Fresh)
      returns (ok: bool)
      requires Valid() && k < |nodes| && nodes[k] == selected && Table()[k].Free? && FreshIn(heap, f)
      modifies this
      ensures Valid()
      ensures ok <==> PartCount(old(Table())) < numPartEnts && 0 < newSize <= old(Table())[k].size
      ensures !ok ==> heap == old(heap) && parts == old(parts) && nodes == old(nodes)
      ensures ok ==>
        var p := Part(newSize, Unused, [], false, partid, NEW_TYPE);
        var off := if atEnd then old(Table())[k].size - newSize else 0;
        && Table() == Split(old(Table()), k, off, p)
        && Alloc(Table(), 0) == Alloc(old(Table()), 0)[Total(old(Table())[..k]) + off := p]
    {
      hide Linked, Canonical, Split, Alloc, Writable, PartCount;
      NodeLinks(heap, parts, nodes, k);
      var numParts := CountPartitions();
      ok := numParts != numPartEnts && 0 < newSize <= heap[selected].data.size;
      if ok {
        var off := if atEnd then heap[selected].data.size - newSize else 0;
        SplitIsTiling(Table(), k, off, NewPart(newSize, partid), 0);
        NewCanBeWritten(newSize, partid);
        Replace(k, selected, off, NewPart(newSize, partid), f);
      }
    }

    /** The keys of partEdit that change the partition. */
    method EditPartition(ghost k: nat, selected: Ptr, edit: Edit)
      requires Valid() && k < |nodes| && nodes[k] == selected && Table()[k].Part?
      modifies this`heap
      ensures Valid() && Table() == old(Table())[k := Edited(old(Table())[k], edit)]
      ensures Alloc(Table(), 0) ==
        Alloc(old(Table()), 0)[Total(old(Table())[..k]) := Edited(old(Table())[k], edit)]
    {
      hide Linked, Canonical, Writable, PartCount, Alloc, Total;
      NodeLinks(heap, parts, nodes, k);
      ghost var t, p := Table(), Edited(Table()[k], edit);
      RelabelLinks(heap, parts, nodes, k, p);
      EditOk(t, k, edit, size, numPartEnts);
      var part := heap[selected].data;
      if edit == CycleUse {
        part := part.(use := if part.use == Unused then Gxfs else Unused);
      } else if edit == ToggleFormat {
        part := part.(format := !part.format);
      } else if edit.Type? {
        if 32 <= edit.c <= 127 && |part.mntpoint| < MAX_TYPED {
          part := part.(mntpoint := part.mntpoint + [edit.c]);
        }
      } else if |part.mntpoint| != 0 {
        part := part.(mntpoint := part.mntpoint[..|part.mntpoint| - 1]);
      }
      assert part == p;
      heap := heap[selected := heap[selected].(data := part)];
      assert Table() == t[k := p];
    }

    /** The call of splitArea in the load loop, once the area is known that the entry ends in. */
    method PlaceEntry(ghost k: nat, area: Ptr, offMB: nat, e: GptEntry, f: Fresh)
      requires Valid() && k < |nodes| && nodes[k] == area && FreshIn(heap, f) && InUse(e) && SizeMB(e) > 0
      requires OffMB(e) == Total(Table()[..k]) + offMB && Clear(Table(), OffMB(e), SizeMB(e))
      requires offMB + SizeMB(e) <= Table()[k].size && PartCount(Table()) < numPartEnts
      modifies this
      ensures Valid() && PartCount(Table()) == PartCount(old(Table())) + 1
      ensures Alloc(Table(), 0) == Alloc(old(Table()), 0)[OffMB(e) := PartOf(e)]
    {
      hide Linked, Canonical, Split, Alloc, PartOf, Clear, OffMB, SizeMB, InUse, CanWrite, Writable, PartCount;
      ScanStopsInHole(Table(), k, OffMB(e), SizeMB(e));
      SplitIsTiling(Table(), k, offMB, PartOf(e), 0);
      SplitCount(Table(), k, offMB, PartOf(e));
      LoadedCanBeWritten(e);
      Replace(k, area, offMB, PartOf(e), f);
    }

    /**
     The body of the load loop of driveDetected for an entry in use: it is placed,
     unless it ends behind the usable space.  The running offMB is a nat: it never
     goes below zero when the space of the entry is clear.
     */
    method LoadEntry(e: GptEntry, f: Fresh)
      requires Valid() && FreshIn(heap, f) && InUse(e) && IsSound(e) && Clear(Table(), OffMB(e), SizeMB(e))
      requires PartCount(Table()) < numPartEnts
      modifies this
      ensures Valid()
      ensures Fits(e, size) ==>
        && PartCount(Table()) == PartCount(old(Table())) + 1
        && Alloc(Table(), 0) == Alloc(old(Table()), 0)[OffMB(e) := PartOf(e)]
        && IsLoadedFrom(PartOf(e), e)
      ensures !Fits(e, size) ==> heap == old(heap) && parts == old(parts) && nodes == old(nodes)
    {
      hide Linked, Canonical, Split, Alloc, PartOf, Clear, FreshIn, Writable, PartCount, IsLoadedFrom, InUse;
      ghost var t := Table();
      PartIsLoaded(e);
      var offMB: nat := e.startLBA / LBA_PER_MB - 1;
      var sizeMB := (e.endLBA - e.startLBA + 1) / LBA_PER_MB;
      var endMB := offMB + sizeMB;
      ghost var off: nat := offMB;
      assert nodes != [] by { TotalPositive(t); }
      NodeLinks(heap, parts, nodes, 0);
      TotalPrefix(t, 0, 1);
      if endMB <= heap[parts.value].data.size {
        PlaceEntry(0, parts.value, offMB, e, f);
      } else {
        var scan := parts.value;
        ghost var k := 0;
        while heap[scan].next != None
          invariant k < |nodes| && nodes[k] == scan && scan in heap
          invariant heap == old(heap) && nodes == old(nodes) && parts == old(parts)
          invariant offMB == off - Total(t[..k]) && offMB + sizeMB > t[k].size
          invariant off == OffMB(e) && sizeMB == SizeMB(e)
          decreases |nodes| - k
        {
          NodeLinks(heap, parts, nodes, k);
          TotalPrefix(t, k, k + 1);
          NoStraddle(t, k, off, sizeMB);
          offMB := offMB - heap[scan].data.size;
          endMB := offMB + sizeMB;
          var next := heap[scan].next.value;
          NodeLinks(heap, parts, nodes, k + 1);
          TotalPrefix(t, k + 1, k + 2);
          if endMB <= heap[next].data.size {
            PlaceEntry(k + 1, next, offMB, e, f);
            return;
          }
          scan := next;
          k := k + 1;
        }
        NodeLinks(heap, parts, nodes, k);
        LastArea(t);
      }
    }

    /**
     The load loop of driveDetected, on a table just created for the usable space.
     The nodes for entry i are what malloc then returns: not in use at that moment,
     though a node freed by an earlier splitArea may come back.
     */
    method LoadTable(es: seq<GptEntry>, malloc: (nat, Nodes) -> Fresh)
      requires Valid() && Table() == [Free(size)] && |es| == numPartEnts && Loadable(es, size)
      requires forall i: nat, h: Nodes :: FreshIn(h, malloc(i, h))
      modifies this
      ensures Valid() && Alloc(Table(), 0) == EntryMap(es, size) && IsTableOf(Table(), es, size)
    {
      hide Linked, Canonical, Clear, Alloc, Areas, Split, Writable, FreshIn, IsTableOf;
      FreeRun(Table(), 0);
      OneArea(Free(size));
      hide PartCount;
      assert es[..0] == [];
      for i := 0 to |es|
        invariant Valid() && PartCount(Table()) <= i
        invariant Loadable(es[..i], size) && Alloc(Table(), 0) == EntryMap(es[..i], size)
      {
        LoadablePrefix(es, i, size);
        if InUse(es[i]) {
          ClearOfLoaded(Table(), es, i);
          LoadEntry(es[i], malloc(i, heap));
        }
      }
      assert es[..|es|] == es;
      LoadedTable(Table(), es);
    }

    /** The entry array that partFlush writes: one entry a partition, in order, zeros behind. */
    method WriteTable() returns (entries: seq<GptEntry>)
      requires Valid()
      ensures |entries| == numPartEnts && |Flush(Table(), 1)| <= numPartEnts && Flush(Table(), 1) <= entries
      ensures forall i :: |Flush(Table(), 1)| <= i < numPartEnts ==> entries[i] == NULL_ENTRY
      ensures forall k :: 0 <= k < |Table()| && Table()[k].Part? ==> IsWrittenAt(entries, Table(), k, 1)
    {
      hide Linked, Canonical, WriteEntry, Flush, PartCount, Writable;
      LinkedInHeap(heap, parts, nodes);
      SizesPositive(Table());
      FlushCount(Table(), 1);
      entries := seq(numPartEnts, i => NULL_ENTRY);
      var put, offset := 0, 1;
      ghost var first := offset;
      var part := parts;
      ghost var k := 0;
      ghost var all := Flush(Table(), 1);
      assert Table()[0..] == Table();
      while part != None
        invariant k <= |nodes| && part == HeadOf(nodes[k..])
        invariant |entries| == numPartEnts && offset > 0
        invariant put <= |all| && all == entries[..put] + Flush(Table()[k..], offset)
        invariant forall i :: put <= i < numPartEnts ==> entries[i] == NULL_ENTRY
        decreases |nodes| - k
      {
        var p := part.value;
        NodeLinks(heap, parts, nodes, k);
        FlushStep(Table(), k, offset);
        assert nodes[k..][1..] == nodes[k + 1..];
        if heap[p].data.Part? {
          ghost var old' := entries;
          entries := entries[put := WriteEntry(heap[p].data, offset)];
          assert entries[..put + 1] == old'[..put] + [WriteEntry(heap[p].data, offset)];
          put := put + 1;
        }
        offset := offset + heap[p].data.size;
        part := heap[p].next;
        k := k + 1;
      }
      FlushEnd(Table(), offset);
      WrittenInOrder(Table(), first);
    }
  }

  /**
   Writing the table of a drive and loading what was written, on a drive with the
   same header, gives the same areas at the same places, each partition as
   `Reloaded` says.
   */
  method WriteThenLoad(drive: Drive, p: Ptr, malloc: (nat, Nodes) -> Fresh) returns (again: Drive)
    requires drive.Valid()
    requires forall i: nat, h: Nodes :: FreshIn(h, malloc(i, h))
    ensures fresh(again) && again.Valid() && again.size == drive.size && again.numPartEnts == drive.numPartEnts
    ensures again.Table() == ReloadAll(drive.Table())
  {
    hide Linked, Canonical, Flush, PartCount, Writable, Alloc, EntryMap, Loadable;
    ghost var t := drive.Table();
    WritableSizes(t);
    var entries := drive.WriteTable();
    ghost var es := Flush(t, 1);
    ghost var pad := entries[|es|..];
    assert entries == es + pad;
    assert forall i :: 0 <= i < |pad| ==> !InUse(pad[i]);
    FlushLoadable(t);
    PaddingIgnored(es, pad, drive.size);
    again := new Drive(drive.size, drive.numPartEnts, p);
    again.LoadTable(entries, malloc);
    LoadedIsReloaded(t, pad, again.Table());
  }

  // ----- what the operations keep

  lemma SplitOk(t: Table, k: nat, off: nat, p: Area, size: nat, numPartEnts: nat)
    requires WithinHeader(t, size, numPartEnts) && PartCount(t) < numPartEnts
    requires k < |t| && t[k].Free? && p.Part? && CanWrite(p) && off + p.size <= t[k].size
    ensures WithinHeader(Split(t, k, off, p), size, numPartEnts)
  {
    hide Split, Canonical, PartCount, Writable;
    SplitIsTiling(t, k, off, p, 0);
    SplitWritable(t, k, off, p);
    SplitCount(t, k, off, p);
  }

  lemma DeleteOk(t: Table, k: nat, size: nat, numPartEnts: nat)
    requires WithinHeader(t, size, numPartEnts) && k < |t| && t[k].Part?
    ensures WithinHeader(Delete(t, k), size, numPartEnts)
  {
    hide Delete, Canonical, PartCount, Writable;
    DeleteIsTiling(t, k, 0);
    DeleteWritable(t, k);
    DeleteCount(t, k);
  }

  lemma EditOk(t: Table, k: nat, edit: Edit, size: nat, numPartEnts: nat)
    requires WithinHeader(t, size, numPartEnts) && k < |t| && t[k].Part?
    ensures var s := t[k := Edited(t[k], edit)];
      && WithinHeader(s, size, numPartEnts)
      && Alloc(s, 0) == Alloc(t, 0)[Total(t[..k]) := Edited(t[k], edit)]
  {
    hide Alloc, Total, Canonical, Writable, PartCount, Edited;
    var p, a, b := Edited(t[k], edit), t[..k], t[k + 1..];
    var s := t[k := p];
    EditSound(t, k, edit);
    OnePart(t[k], Total(a));
    OnePart(p, Total(a));
    OutsideMiddle(t, k, 0, Total(a));
    assert t == a + ([t[k]] + b) && t == a + [t[k]] + b;
    assert s == a + ([p] + b) && s == a + [p] + b;
    ReplaceMiddle(a, [t[k]], [p], b, 0);
    CountSides(a, [t[k]], b);
    CountSides(a, [p], b);
    OneArea(t[k]);
    OneArea(p);
  }

  lemma EditSound(t: Table, k: nat, edit: Edit)
    requires Canonical(t) && Writable(t) && k < |t| && t[k].Part?
    ensures var p := Edited(t[k], edit);
      && p.Part? && p.size == t[k].size && p.size > 0
      && Canonical(t[k := p]) && Writable(t[k := p])
  {
    var s := t[k := Edited(t[k], edit)];
    assert CanWrite(t[k]) && CanWrite(s[k]);
    forall i | 0 <= i < |t| - 1 ensures s[i].Part? || s[i + 1].Part? {
      NoTwoFree(t, i);
    }
  }

  lemma NewCanBeWritten(size: nat, partid: Guid)
    requires size > 0
    ensures CanWrite(NewPart(size, partid))
  {
    TypesDiffer();
  }

  // ----- writing

  lemma FlushStep(t: Table, k: nat, offset: nat)
    requires k < |t| && forall i :: 0 <= i < |t| ==> t[i].size > 0
    ensures Flush(t[k..], offset) ==
              (if t[k].Part? then [WriteEntry(t[k], offset)] else []) + Flush(t[k + 1..], offset + t[k].size)
  {
    assert t[k..][1..] == t[k + 1..];
  }

  lemma WrittenInOrder(t: Table, offset: nat)
    requires forall i :: 0 <= i < |t| ==> t[i].size > 0
    ensures forall k :: 0 <= k < |t| && t[k].Part? ==> IsWrittenAt(Flush(t, offset), t, k, offset)
  {
    hide WriteEntry, IsWrittenFor, Flush, Slot;
    forall k | 0 <= k < |t| && t[k].Part? ensures IsWrittenAt(Flush(t, offset), t, k, offset) {
      FlushSlot(t, offset, k);
      EntryIsWritten(t[k], offset + Total(t[..k]));
    }
  }

  lemma FlushEnd(t: Table, offset: nat)
    ensures Flush(t[|t|..], offset) == []
  {
    assert t[|t|..] == [];
  }

  // ----- loading

  lemma LastArea(t: Table)
    requires t != []
    ensures Total(t[..|t| - 1]) + t[|t| - 1].size == Total(t)
  {
    TotalPrefix(t, |t| - 1, |t|);
    assert t[..|t| - 1 + 1] == t;
  }

  lemma TotalPositive(t: Table)
    requires Total(t) > 0
    ensures t != []
  {
  }

  /** A clear space that ends beyond an area starts no earlier than that area's end. */
  lemma NoStraddle(t: Table, k: nat, off: nat, size: nat)
    requires Canonical(t) && k + 1 < |t| && size > 0 && Clear(t, off, size) && off + size > Total(t[..k + 1])
    ensures Total(t[..k + 1]) <= off
  {
    NoTwoFree(t, k);
    TotalPrefix(t, k, k + 1);
    if t[k].Part? { AllocAt(t, 0, k); } else { AllocAt(t, 0, k + 1); }
  }

  lemma LoadablePrefix(es: seq<GptEntry>, i: nat, total: nat)
    requires i < |es| && Loadable(es, total)
    ensures Loadable(es[..i + 1], total) && es[..i + 1][..i] == es[..i]
    ensures InUse(es[i]) ==> IsSound(es[i])
  {
  }

  lemma ClearOfLoaded(t: Table, es: seq<GptEntry>, i: nat)
    requires i < |es| && Loadable(es, Total(t)) && Loadable(es[..i], Total(t))
    requires Alloc(t, 0) == EntryMap(es[..i], Total(t)) && InUse(es[i])
    ensures OffMB(es[i]) >= 0 && SizeMB(es[i]) > 0 && Clear(t, OffMB(es[i]), SizeMB(es[i]))
  {
    forall o | o in Alloc(t, 0)
      ensures OffMB(es[i]) + SizeMB(es[i]) <= o || o + Alloc(t, 0)[o].size <= OffMB(es[i])
    {
      EntryMapFrom(es[..i], Total(t), o);
      var j :| 0 <= j < i && Loads(es[..i][j], Total(t)) && OffMB(es[..i][j]) == o
               && EntryMap(es[..i], Total(t))[o] == PartOf(es[..i][j]);
      assert es[..i][j] == es[j];
      assert Apart(es[j], es[i]);
    }
  }

  // ----- what loading a table means

  /** The index of the partition at an offset. */
  lemma {:induction false} AllocIndex(t: Table, base: nat, o: nat) returns (k: nat)
    requires o in Alloc(t, base)
    ensures k < |t| && t[k] == Alloc(t, base)[o] && base + Total(t[..k]) == o
  {
    if o in Alloc(t[1..], base + t[0].size) {
      k := AllocIndex(t[1..], base + t[0].size, o);
      k := k + 1;
      assert t[..k][1..] == t[1..][..k - 1];
    } else {
      k := 0;
    }
  }

  /**
   Loading is exact: every entry in use that fits the disk is an area of the table, at
   the entry's own offset and size.
   */
  lemma EntryIsLoaded(t: Table, es: seq<GptEntry>, i: nat) returns (k: nat)
    requires Loadable(es, Total(t)) && Alloc(t, 0) == EntryMap(es, Total(t)) && i < |es| && Loads(es[i], Total(t))
    ensures k < |t| && t[k] == PartOf(es[i]) && Total(t[..k]) == OffMB(es[i])
    ensures IsAreaOf(t, k, es[i])
  {
    PartIsLoaded(es[i]);
    EntryMapHas(es, Total(t), i);
    k := AllocIndex(t, 0, OffMB(es[i]));
  }

  /** And every partition of the table is an entry. */
  lemma LoadedIsEntry(t: Table, es: seq<GptEntry>, k: nat) returns (i: nat)
    requires Canonical(t) && Loadable(es, Total(t)) && Alloc(t, 0) == EntryMap(es, Total(t)) && k < |t| && t[k].Part?
    ensures i < |es| && Loads(es[i], Total(t)) && t[k] == PartOf(es[i]) && OffMB(es[i]) == Total(t[..k])
    ensures IsAreaOf(t, k, es[i])
  {
    AllocAt(t, 0, k);
    EntryMapFrom(es, Total(t), Total(t[..k]));
    i :| 0 <= i < |es| && Loads(es[i], Total(t)) && OffMB(es[i]) == Total(t[..k])
         && EntryMap(es, Total(t))[Total(t[..k])] == PartOf(es[i]);
    PartIsLoaded(es[i]);
  }

  lemma LoadedTable(t: Table, es: seq<GptEntry>)
    requires Canonical(t) && Loadable(es, Total(t)) && Alloc(t, 0) == EntryMap(es, Total(t))
    ensures IsTableOf(t, es, Total(t))
  {
    hide Canonical, Loadable, Alloc, EntryMap, IsAreaOf;
    forall i | 0 <= i < |es| && Loads(es[i], Total(t)) ensures exists k :: IsAreaOf(t, k, es[i]) {
      var k := EntryIsLoaded(t, es, i);
    }
    forall k | 0 <= k < |t| && t[k].Part?
      ensures exists i :: 0 <= i < |es| && es[i].typ != NULL_TYPE && IsAreaOf(t, k, es[i])
    {
      var i := LoadedIsEntry(t, es, k);
    }
  }

  /** The table does not depend on the order in which the entries stand in the array. */
  lemma LoadOrderIrrelevant(a: Table, b: Table, es: seq<GptEntry>, fs: seq<GptEntry>)
    requires Canonical(a) && Canonical(b) && Total(a) == Total(b) && Loadable(es, Total(a)) && Loadable(fs, Total(a))
    requires Alloc(a, 0) == EntryMap(es, Total(a)) && Alloc(b, 0) == EntryMap(fs, Total(a))
    requires forall e :: InUse(e) ==> (e in es <==> e in fs)
    ensures a == b
  {
    EntryMapUnordered(es, fs, Total(a));
    UniqueTiling(a, b, 0);
  }

  lemma WithoutBefore(q: seq<Ptr>, n: nat, k: nat)
    requires k < n < |q|
    ensures Without(q, n)[k] == q[k] && |Without(q, n)| == |q| - 1
  {
  }

  lemma RelabelLinks(heap: Nodes, first: Option<Ptr>, q: seq<Ptr>, k: nat, a: Area)
    requires Linked(heap, first, q) && k < |q| && q[k] in heap
    ensures var h := heap[q[k] := heap[q[k]].(data := a)];
            Linked(h, first, q) && Areas(h, q) == Areas(heap, q)[k := a]
  {
    hide Linked;
    LinkedInHeap(heap, first, q);
    NodeLinks(heap, first, q, k);
    var h := heap[q[k] := heap[q[k]].(data := a)];
    forall i | 0 <= i < |q| ensures AreaAt(h, q[i]) == if i == k then a else AreaAt(heap, q[i]) {
      if i != k { DistinctAt(q, i, k); }
    }
    LinkedAgree(heap, h, first, q);
  }

  lemma SplitKeeps(heap: Nodes, q: seq<Ptr>, k: nat, off: nat, p: Area, f: Fresh)
    requires Distinct(q) && k < |q| && q[k] in heap && p.Part? && off + p.size <= heap[q[k]].data.size
    requires forall i :: 0 <= i < |q| ==> q[i] in heap
    ensures k > 0 ==> q[k - 1] in SplitHeap(heap, q[k], off, p, f)
    ensures k + 1 < |q| ==> q[k + 1] in SplitHeap(heap, q[k], off, p, f)
  {
  }
}
