/**
 Doubly linked lists in an explicit memory.  A heap maps the addresses that
 malloc has handed out and free has not taken back to list nodes; following a
 pointer is a lookup, so it carries the proof that the node is allocated.  Used
 for the handler list and the event queue of libgwm/libgwm.c, the area list of
 gxsetup/partition.c and the tree of libgwm/datactrl.c.
 */
module LinkedLists {

  datatype Option<+T> = None | Some(value: T)

  type Ptr = nat

  datatype Node<+T> = Node(prev: Option<Ptr>, next: Option<Ptr>, data: T)

  type Heap<+T> = map<Ptr, Node<T>>

  ghost predicate Distinct(s: seq<Ptr>) {
    forall i, j :: 0 <= i < j < |s| ==> s[i] != s[j]
  }

  function HeadOf(s: seq<Ptr>): Option<Ptr> {
    if s == [] then None else Some(s[0])
  }

  function PrevOf(s: seq<Ptr>, i: nat): Option<Ptr>
    requires i < |s|
  {
    if i == 0 then None else Some(s[i - 1])
  }

  function NextOf(s: seq<Ptr>, i: nat): Option<Ptr>
    requires i < |s|
  {
    if i == |s| - 1 then None else Some(s[i + 1])
  }

  lemma DistinctAt(q: seq<Ptr>, i: nat, j: nat)
    requires Distinct(q) && i < |q| && j < |q| && i != j
    ensures q[i] != q[j]
  {
  }

  /** The pointers in the heap spell out the list s. */
  ghost predicate Linked<T>(heap: Heap<T>, first: Option<Ptr>, s: seq<Ptr>) {
    && Distinct(s)
    && first == HeadOf(s)
    && forall i :: 0 <= i < |s| ==>
         s[i] in heap && heap[s[i]].prev == PrevOf(s, i) && heap[s[i]].next == NextOf(s, i)
  }

  lemma LinkedInHeap<T>(heap: Heap<T>, first: Option<Ptr>, s: seq<Ptr>)
    requires Linked(heap, first, s)
    ensures first == None <==> s == []
    ensures s != [] ==> first == Some(s[0])
    ensures forall i :: 0 <= i < |s| ==> s[i] in heap
  {
  }

  /** A list depends on the links of its own nodes only. */
  lemma LinkedAgree<T>(heap: Heap<T>, h: Heap<T>, first: Option<Ptr>, s: seq<Ptr>)
    requires Linked(heap, first, s)
    requires forall i :: 0 <= i < |s| ==>
      s[i] in h && h[s[i]].prev == heap[s[i]].prev && h[s[i]].next == heap[s[i]].next
    ensures Linked(h, first, s)
  {
  }

  /** Node k, and why its neighbours can be written to. */
  lemma NodeLinks<T>(heap: Heap<T>, first: Option<Ptr>, s: seq<Ptr>, k: nat)
    requires Linked(heap, first, s) && k < |s|
    ensures var p := s[k];
            && Distinct(s) && p in heap && heap[p].next == NextOf(s, k) && heap[p].prev == PrevOf(s, k)
            && (first == Some(p) <==> k == 0)
            && heap[p].prev != Some(p) && heap[p].next != Some(p)
            && (heap[p].prev.Some? ==> heap[p].prev != heap[p].next && heap[p].prev.value in heap)
            && (heap[p].next.Some? ==> heap[p].next.value in heap)
  {
  }

  // ----- adding a node

  /** A new node between two neighbours, either of which may be missing. */
  function Insert<T>(heap: Heap<T>, before: Option<Ptr>, after: Option<Ptr>, p: Ptr, data: T): Heap<T> {
    var h := heap[p := Node(before, after, data)];
    var g := if before.Some? && before.value in h then h[before.value := h[before.value].(next := Some(p))] else h;
    if after.Some? && after.value in g then g[after.value := g[after.value].(prev := Some(p))] else g
  }

  function Inserted(s: seq<Ptr>, i: nat, p: Ptr): (t: seq<Ptr>)
    requires i <= |s|
    ensures |t| == |s| + 1
    ensures forall j :: 0 <= j < |t| ==> t[j] == if j < i then s[j] else if j == i then p else s[j - 1]
  {
    s[..i] + [p] + s[i..]
  }

  function Neighbours(s: seq<Ptr>, i: nat): (Option<Ptr>, Option<Ptr>)
    requires i <= |s|
  {
    (if i == 0 then None else Some(s[i - 1]), if i == |s| then None else Some(s[i]))
  }

  lemma InsertIndex<T>(heap: Heap<T>, first: Option<Ptr>, s: seq<Ptr>, i: nat, p: Ptr, data: T, j: nat)
    requires Linked(heap, first, s) && i <= |s| && p !in heap && j <= |s|
    ensures var h, t := Insert(heap, Neighbours(s, i).0, Neighbours(s, i).1, p, data), Inserted(s, i, p);
            t[j] in h && h[t[j]].prev == PrevOf(t, j) && h[t[j]].next == NextOf(t, j)
  {
    hide Linked, Insert, Distinct;
    LinkedInHeap(heap, first, s);
    if 0 < i < |s| { LinkedDistinct(heap, first, s, i - 1, i); }
    InsertAt(heap, Neighbours(s, i).0, Neighbours(s, i).1, p, data, p);
    if j != i {
      var k := if j < i then j else j - 1;
      NodeLinks(heap, first, s, k);
      InsertAt(heap, Neighbours(s, i).0, Neighbours(s, i).1, p, data, s[k]);
      if 0 < i && k != i - 1 { LinkedDistinct(heap, first, s, k, i - 1); }
      if i < |s| && k != i { LinkedDistinct(heap, first, s, k, i); }
    }
  }

  lemma LinkedDistinct<T>(heap: Heap<T>, first: Option<Ptr>, s: seq<Ptr>, i: nat, j: nat)
    requires Linked(heap, first, s) && i < |s| && j < |s| && i != j
    ensures s[i] != s[j]
  {
  }

  lemma InsertLinks<T>(heap: Heap<T>, first: Option<Ptr>, s: seq<Ptr>, i: nat, p: Ptr, data: T)
    requires Linked(heap, first, s) && i <= |s| && p !in heap
    ensures (i > 0 ==> s[i - 1] in heap) && (i < |s| ==> s[i] in heap)
    ensures Linked(Insert(heap, Neighbours(s, i).0, Neighbours(s, i).1, p, data),
                   if i == 0 then Some(p) else first, Inserted(s, i, p))
  {
    hide Insert;
    LinkedInHeap(heap, first, s);
    InsertedDistinct(s, i, p);
    forall j | 0 <= j <= |s|
      ensures var h, t := Insert(heap, Neighbours(s, i).0, Neighbours(s, i).1, p, data), Inserted(s, i, p);
              t[j] in h && h[t[j]].prev == PrevOf(t, j) && h[t[j]].next == NextOf(t, j)
    {
      InsertIndex(heap, first, s, i, p, data, j);
    }
  }

  lemma InsertedDistinct(s: seq<Ptr>, i: nat, p: Ptr)
    requires Distinct(s) && i <= |s| && p !in s
    ensures Distinct(Inserted(s, i, p))
  {
  }

  /** Node by node: only the new node and its neighbours change, and they only in a link. */
  lemma InsertAt<T>(heap: Heap<T>, before: Option<Ptr>, after: Option<Ptr>, p: Ptr, data: T, x: Ptr)
    requires p !in heap && (before.Some? ==> before.value in heap && before != after)
    requires (after.Some? ==> after.value in heap)
    ensures var h := Insert(heap, before, after, p, data);
            && h.Keys == heap.Keys + {p} && h[p] == Node(before, after, data)
            && (x in heap ==> h[x] == heap[x].(
                  next := if before == Some(x) then Some(p) else heap[x].next,
                  prev := if after == Some(x) then Some(p) else heap[x].prev))
  {
  }

  // ----- at the front and at the back

  function Push<T>(heap: Heap<T>, first: Option<Ptr>, p: Ptr, data: T): Heap<T> {
    Insert(heap, None, first, p, data)
  }

  lemma PushLinks<T>(heap: Heap<T>, first: Option<Ptr>, s: seq<Ptr>, p: Ptr, data: T)
    requires Linked(heap, first, s) && p !in heap
    ensures Linked(Push(heap, first, p, data), Some(p), [p] + s)
    ensures first.Some? ==> first.value in heap
    ensures var h := Push(heap, first, p, data);
            && h.Keys == heap.Keys + {p} && (forall q :: q in heap ==> h[q] == heap[q].(prev := h[q].prev))
            && h[p] == Node(None, first, data)
  {
    hide Linked;
    LinkedInHeap(heap, first, s);
    InsertLinks(heap, first, s, 0, p, data);
    assert Inserted(s, 0, p) == [p] + s;
  }

  function Append<T>(heap: Heap<T>, last: Option<Ptr>, p: Ptr, data: T): Heap<T> {
    Insert(heap, last, None, p, data)
  }

  lemma AppendLinks<T>(heap: Heap<T>, first: Option<Ptr>, s: seq<Ptr>, p: Ptr, data: T)
    requires Linked(heap, first, s) && p !in heap
    ensures var last, t := if s == [] then None else Some(s[|s| - 1]), s + [p];
            var h := Append(heap, last, p, data);
            && (s != [] ==> last.value in heap)
            && Linked(h, if s == [] then Some(p) else first, t)
            && forall i :: 0 <= i < |t| ==> t[i] in h && h[t[i]].data == (if i == |s| then data else heap[s[i]].data)
  {
    hide Linked;
    LinkedInHeap(heap, first, s);
    InsertLinks(heap, first, s, |s|, p, data);
    assert Inserted(s, |s|, p) == s + [p];
  }

  // ----- taking a node out

  /** The pointer assignments that take p out of the list. */
  function Unlink<T>(heap: Heap<T>, p: Ptr): Heap<T>
    requires p in heap
  {
    var e := heap[p];
    var h := if e.prev.Some? && e.prev.value in heap
      then heap[e.prev.value := heap[e.prev.value].(next := e.next)] else heap;
    if e.next.Some? && e.next.value in h then h[e.next.value := h[e.next.value].(prev := e.prev)] else h
  }

  /** Unlink, node by node. */
  lemma UnlinkAt<T>(heap: Heap<T>, p: Ptr, x: Ptr)
    requires p in heap && x in heap
    requires (heap[p].prev.Some? ==> heap[p].prev != heap[p].next && heap[p].prev.value in heap)
    requires heap[p].next.Some? ==> heap[p].next.value in heap
    ensures Unlink(heap, p).Keys == heap.Keys
    ensures Unlink(heap, p)[x] == heap[x].(
              next := if heap[p].prev == Some(x) then heap[p].next else heap[x].next,
              prev := if heap[p].next == Some(x) then heap[p].prev else heap[x].prev)
  {
  }

  function Without(s: seq<Ptr>, k: nat): (t: seq<Ptr>)
    requires k < |s|
    ensures |t| == |s| - 1 && forall i :: 0 <= i < |t| ==> t[i] == s[if i < k then i else i + 1]
  {
    s[..k] + s[k + 1..]
  }

  lemma WithoutMembers(s: seq<Ptr>, k: nat)
    requires k < |s| && Distinct(s)
    ensures forall q :: q in Without(s, k) <==> q in s && q != s[k]
    ensures Without(s, k)[k..] == s[k + 1..]
  {
    var t := Without(s, k);
    forall q ensures q in t <==> q in s && q != s[k] {
      if q in s && q != s[k] {
        var i :| 0 <= i < |s| && s[i] == q;
        assert t[if i < k then i else i - 1] == q;
      }
      if q in t {
        var i :| 0 <= i < |t| && t[i] == q;
      }
    }
  }

  lemma UnlinkIndex<T>(heap: Heap<T>, first: Option<Ptr>, s: seq<Ptr>, k: nat, i: nat)
    requires Linked(heap, first, s) && k < |s| && i < |s| - 1
    ensures var t, h := Without(s, k), Unlink(heap, s[k]);
            && t[i] in h && h[t[i]].prev == PrevOf(t, i) && h[t[i]].next == NextOf(t, i)
            && h[t[i]].data == heap[t[i]].data
  {
    var j := if i < k then i else i + 1;
    UnlinkAt(heap, s[k], s[j]);
    assert PrevOf(s, k) == Some(s[j]) <==> j == k - 1;
    assert NextOf(s, k) == Some(s[j]) <==> j == k + 1;
  }

  lemma UnlinkLinks<T>(heap: Heap<T>, first: Option<Ptr>, s: seq<Ptr>, k: nat)
    requires Linked(heap, first, s) && k < |s|
    ensures Linked(Unlink(heap, s[k]), if k == 0 then NextOf(s, 0) else first, Without(s, k))
    ensures first == Some(s[k]) <==> k == 0
    ensures forall i :: 0 <= i < |s| - 1 ==> Unlink(heap, s[k])[Without(s, k)[i]].data == heap[Without(s, k)[i]].data
  {
    forall i | 0 <= i < |s| - 1
      ensures var t, h := Without(s, k), Unlink(heap, s[k]);
              && t[i] in h && h[t[i]].prev == PrevOf(t, i) && h[t[i]].next == NextOf(t, i)
              && h[t[i]].data == heap[t[i]].data
    {
      UnlinkIndex(heap, first, s, k, i);
    }
  }
}
