/**
 The partition table of gxsetup/partition.c as a list of areas, each a run of
 whole megabytes: what it means to tile a disk, and why such a tiling is
 determined by the partitions in it.
 */
module PartitionGeometry {

  type Guid = seq<nat>
  type CString = seq<nat>   // the bytes before the terminating NUL

  datatype Use = Unused | Gxfs

  /** A run of unallocated space, or a partition.  Sizes are in MB. */
  datatype Area =
    | Free(size: nat)
    | Part(size: nat, use: Use, mntpoint: CString, format: bool, partid: Guid, origtype: Guid)

  type Table = seq<Area>

  function Total(t: Table): nat {
    if t == [] then 0 else t[0].size + Total(t[1..])
  }

  /** The partitions of t by offset, when t starts at base. */
  ghost function Alloc(t: Table, base: nat): map<nat, Area> {
    if t == [] then map[]
    else (if t[0].Part? then map[base := t[0]] else map[]) + Alloc(t[1..], base + t[0].size)
  }

  /** No empty area, and no two runs of unallocated space side by side. */
  ghost predicate Canonical(t: Table) {
    && (forall i :: 0 <= i < |t| ==> t[i].size > 0)
    && (forall i :: 0 <= i < |t| - 1 ==> t[i].Part? || t[i + 1].Part?)
  }

  lemma {:induction false} TotalConcat(a: Table, b: Table)
    ensures Total(a + b) == Total(a) + Total(b)
  {
    if a == [] {
      assert a + b == b;
    } else {
      assert (a + b)[1..] == a[1..] + b;
      TotalConcat(a[1..], b);
    }
  }

  lemma MapAssociative(x: map<nat, Area>, y: map<nat, Area>, z: map<nat, Area>)
    ensures x + (y + z) == (x + y) + z
  {
  }

  lemma {:induction false} AllocConcat(a: Table, b: Table, base: nat)
    ensures Alloc(a + b, base) == Alloc(a, base) + Alloc(b, base + Total(a))
  {
    hide Alloc;
    AllocStep(a, base);
    if a == [] {
      assert a + b == b;
    } else {
      var x := if a[0].Part? then map[base := a[0]] else map[];
      var rest := base + a[0].size;
      AllocConcat(a[1..], b, rest);
      AllocStep(a + b, base);
      assert (a + b)[1..] == a[1..] + b && (a + b)[0] == a[0];
      MapAssociative(x, Alloc(a[1..], rest), Alloc(b, base + Total(a)));
    }
  }

  lemma AllocStep(t: Table, base: nat)
    ensures Alloc(t, base) ==
      if t == [] then map[]
      else (if t[0].Part? then map[base := t[0]] else map[]) + Alloc(t[1..], base + t[0].size)
  {
  }

  /** Every partition lies inside the run of the table. */
  lemma {:induction false} AllocRange(t: Table, base: nat, o: nat)
    requires o in Alloc(t, base)
    ensures base <= o && o + Alloc(t, base)[o].size <= base + Total(t) && Alloc(t, base)[o].Part?
    ensures Alloc(t, base)[o] in t
  {
    if o in Alloc(t[1..], base + t[0].size) {
      AllocRange(t[1..], base + t[0].size, o);
    }
  }

  /** The partition at index k is at its offset. */
  lemma {:induction false} AllocAt(t: Table, base: nat, k: nat)
    requires k < |t| && t[k].Part? && forall i :: 0 <= i < |t| ==> t[i].size > 0
    ensures base + Total(t[..k]) in Alloc(t, base) && Alloc(t, base)[base + Total(t[..k])] == t[k]
  {
    if k == 0 {
      if base in Alloc(t[1..], base + t[0].size) {
        AllocRange(t[1..], base + t[0].size, base);
        assert false;
      }
    } else {
      AllocAt(t[1..], base + t[0].size, k - 1);
      assert t[..k][1..] == t[1..][..k - 1];
    }
  }

  lemma NoTwoFree(t: Table, i: nat)
    requires Canonical(t) && i + 1 < |t|
    ensures t[i].Part? || t[i + 1].Part?
  {
  }

  // ----- the tiling is determined by the partitions

  lemma HeadPart(t: Table, base: nat)
    requires Canonical(t) && t != []
    ensures base in Alloc(t, base) <==> t[0].Part?
    ensures t[0].Part? ==> Alloc(t, base)[base] == t[0]
    ensures t[0].Part? ==> Alloc(t[1..], base + t[0].size) == Alloc(t, base) - {base}
  {
    var rest := Alloc(t[1..], base + t[0].size);
    if base in rest {
      AllocRange(t[1..], base + t[0].size, base);
      assert false;
    }
  }

  /** After leading free space comes a partition, or the end. */
  lemma HeadFree(t: Table, base: nat)
    requires Canonical(t) && t != [] && t[0].Free?
    ensures if |t| == 1 then Total(t) == t[0].size && Alloc(t, base) == map[]
            else base + t[0].size in Alloc(t, base)
    ensures forall o :: o in Alloc(t, base) ==> base + t[0].size <= o
  {
    forall o | o in Alloc(t, base) ensures base + t[0].size <= o {
      AllocRange(t[1..], base + t[0].size, o);
    }
    if |t| == 1 {
      assert t[1..] == [];
    } else {
      assert t[1].Part?;
      CanonicalTail(t);
      HeadPart(t[1..], base + t[0].size);
    }
  }

  lemma CanonicalTail(t: Table)
    requires Canonical(t) && t != []
    ensures Canonical(t[1..])
  {
    var r := t[1..];
    assert forall i :: 0 <= i < |r| ==> r[i] == t[i + 1];
    forall i | 0 <= i < |r| - 1 ensures r[i].Part? || r[i + 1].Part? {
      assert t[i + 1].Part? || t[i + 1 + 1].Part?;
    }
  }

  /** Two canonical tilings of the same space with the same partitions are the same list. */
  lemma {:induction false} UniqueTiling(a: Table, b: Table, base: nat)
    requires Canonical(a) && Canonical(b) && Total(a) == Total(b) && Alloc(a, base) == Alloc(b, base)
    ensures a == b
    decreases |a|
  {
    if a == [] || b == [] {
      assert Total(a) == 0 && Total(b) == 0;
      assert a == [] && b == [];
    } else {
      HeadPart(a, base);
      HeadPart(b, base);
      if a[0].Free? {
        HeadFree(a, base);
        HeadFree(b, base);
      }
      assert a[0] == b[0];
      CanonicalTail(a);
      CanonicalTail(b);
      UniqueTiling(a[1..], b[1..], base + a[0].size);
      assert a == [a[0]] + a[1..] && b == [b[0]] + b[1..];
    }
  }

  // ----- taking a partition out of free space

  /** splitArea: the unallocated area k becomes free space, the partition, free space, without empty ends. */
  function Pieces(area: nat, off: nat, p: Area): Table {
    (if off == 0 then [] else [Free(off)]) + [p] + (if off + p.size >= area then [] else [Free(area - p.size - off)])
  }

  function Split(t: Table, k: nat, off: nat, p: Area): Table
    requires k < |t|
  {
    if t[k].Part? then t else t[..k] + Pieces(t[k].size, off, p) + t[k + 1..]
  }

  lemma SplitIsTiling(t: Table, k: nat, off: nat, p: Area, base: nat)
    requires k < |t| && t[k].Free? && p.Part? && p.size > 0 && off + p.size <= t[k].size && Canonical(t)
    ensures Canonical(Split(t, k, off, p)) && Total(Split(t, k, off, p)) == Total(t)
    ensures Alloc(Split(t, k, off, p), base) == Alloc(t, base)[base + Total(t[..k]) + off := p]
  {
    hide Canonical, Alloc, Pieces;
    var a, m, b := t[..k], Pieces(t[k].size, off, p), t[k + 1..];
    var o := base + Total(a);
    assert t == a + ([t[k]] + b);
    assert Split(t, k, off, p) == a + (m + b);
    PiecesTotal(t[k].size, off, p, o);
    FreeRun([t[k]], o);
    SplitCanonical(t, k, off, p);
    ReplaceMiddle(a, [t[k]], m, b, base);
    OutsideMiddle(t, k, base, o + off);
    MapReplace(Alloc(a, base), map[o + off := p], Alloc(b, o + t[k].size), o + off, p);
  }

  /** Changing the middle of a table, at the same size, changes only what the middle contributes. */
  lemma ReplaceMiddle(a: Table, m: Table, m': Table, b: Table, base: nat)
    requires Total(m) == Total(m')
    ensures Total(a + (m + b)) == Total(a + (m' + b)) == Total(a) + Total(m) + Total(b)
    ensures var o := base + Total(a);
            && Alloc(a + (m + b), base) == Alloc(a, base) + (Alloc(m, o) + Alloc(b, o + Total(m)))
            && Alloc(a + (m' + b), base) == Alloc(a, base) + (Alloc(m', o) + Alloc(b, o + Total(m)))
  {
    hide Alloc, Total;
    TotalConcat(a, m + b);
    TotalConcat(m, b);
    TotalConcat(a, m' + b);
    TotalConcat(m', b);
    AllocConcat(a, m + b, base);
    AllocConcat(m, b, base + Total(a));
    AllocConcat(a, m' + b, base);
    AllocConcat(m', b, base + Total(a));
  }

  /** No partition before or after area k starts inside it. */
  lemma OutsideMiddle(t: Table, k: nat, base: nat, o: nat)
    requires k < |t| && Canonical(t) && base + Total(t[..k]) <= o < base + Total(t[..k]) + t[k].size
    ensures o !in Alloc(t[..k], base) && o !in Alloc(t[k + 1..], base + Total(t[..k]) + t[k].size)
  {
    if o in Alloc(t[..k], base) { AllocRangePositive(t[..k], base, o); assert false; }
    if o in Alloc(t[k + 1..], base + Total(t[..k]) + t[k].size) {
      AllocRange(t[k + 1..], base + Total(t[..k]) + t[k].size, o);
      assert false;
    }
  }

  lemma MapReplace(x: map<nat, Area>, y: map<nat, Area>, z: map<nat, Area>, o: nat, p: Area)
    requires y == map[o := p] && o !in x && o !in z
    ensures x + (y + z) == (x + (map[] + z))[o := p]
    ensures x + (map[] + z) == (x + (y + z)) - {o}
  {
  }

  lemma AllocRangePositive(t: Table, base: nat, o: nat)
    requires o in Alloc(t, base) && forall i :: 0 <= i < |t| ==> t[i].size > 0
    ensures base <= o < base + Total(t)
  {
    AllocRange(t, base, o);
  }

  lemma PiecesTotal(area: nat, off: nat, p: Area, base: nat)
    requires p.Part? && off + p.size <= area
    ensures Total(Pieces(area, off, p)) == area
    ensures Alloc(Pieces(area, off, p), base) == map[base + off := p]
  {
    var x: Table := if off == 0 then [] else [Free(off)];
    var z: Table := if off + p.size >= area then [] else [Free(area - p.size - off)];
    TotalConcat(x + [p], z);
    TotalConcat(x, [p]);
    AllocConcat(x + [p], z, base);
    AllocConcat(x, [p], base);
    FreeRun(x, base);
    FreeRun(z, base + Total(x + [p]));
    OnePart(p, base + off);
    hide Alloc, Total;
  }

  lemma OnePart(p: Area, base: nat)
    requires p.Part?
    ensures Total([p]) == p.size && Alloc([p], base) == map[base := p]
  {
    assert [p][1..] == [];
  }

  lemma SplitCanonical(t: Table, k: nat, off: nat, p: Area)
    requires k < |t| && t[k].Free? && p.Part? && p.size > 0 && off + p.size <= t[k].size && Canonical(t)
    ensures Canonical(Split(t, k, off, p))
  {
    var m := Pieces(t[k].size, off, p);
    var s := Split(t, k, off, p);
    PiecesApart(t[k].size, off, p);
    if k > 0 { NoTwoFree(t, k - 1); }
    if k + 1 < |t| { NoTwoFree(t, k); }
    SizesPositive(t);
    hide Canonical, Pieces;
    forall i | 0 <= i < |s| ensures s[i].size > 0 && (i + 1 < |s| ==> s[i].Part? || s[i + 1].Part?) {
      SplitAt(t, k, off, p, i);
      if i + 1 < |s| { SplitAt(t, k, off, p, i + 1); }
      if i < k - 1 { NoTwoFree(t, i); }
      if k + |m| <= i < |s| - 1 { NoTwoFree(t, i - |m| + 1); }
    }
    AllCanonical(s);
  }

  lemma AllCanonical(s: Table)
    requires forall i :: 0 <= i < |s| ==> s[i].size > 0 && (i + 1 < |s| ==> s[i].Part? || s[i + 1].Part?)
    ensures Canonical(s)
  {
  }

  lemma PiecesApart(area: nat, off: nat, p: Area)
    requires p.Part? && p.size > 0 && off + p.size <= area
    ensures var m := Pieces(area, off, p);
      && m != []
      && forall i :: 0 <= i < |m| ==> m[i].size > 0 && (i + 1 < |m| ==> m[i].Part? || m[i + 1].Part?)
  {
  }

  lemma SplitAt(t: Table, k: nat, off: nat, p: Area, i: nat)
    requires k < |t| && t[k].Free? && i < |Split(t, k, off, p)|
    ensures var m := Pieces(t[k].size, off, p);
      && |Split(t, k, off, p)| == |t| - 1 + |m|
      && Split(t, k, off, p)[i] == if i < k then t[i] else if i < k + |m| then m[i - k] else t[i - |m| + 1]
  {
    hide Pieces;
  }

  // ----- giving a partition back

  /** The delete branch of partEdit: free space, engulfing free neighbours on both sides. */
  function Delete(t: Table, k: nat): Table
    requires k < |t|
  {
    var right := if k + 1 < |t| && t[k + 1].Free? then t[k + 1].size else 0;
    var left := if k > 0 && t[k - 1].Free? then t[k - 1].size else 0;
    t[..(if left > 0 then k - 1 else k)] + [Free(left + t[k].size + right)] + t[(if right > 0 then k + 2 else k + 1)..]
  }

  lemma DeleteIsTiling(t: Table, k: nat, base: nat)
    requires k < |t| && t[k].Part? && Canonical(t)
    ensures Canonical(Delete(t, k)) && Total(Delete(t, k)) == Total(t)
    ensures Alloc(Delete(t, k), base) == Alloc(t, base) - {base + Total(t[..k])}
  {
    hide Canonical, Alloc, Delete;
    var i, j := LeftEnd(t, k), RightEnd(t, k);
    var a, l, r, b := t[..i], t[i..k], t[k + 1..j], t[j..];
    var f, m, o := DeleteShape(t, k, base);
    DeleteCanonical(t, k);
    FreeRun([f], base + Total(a));
    ReplaceMiddle(a, m, [f], b, base);
    DeleteOutside(t, k, i, j, base);
    MapReplace(Alloc(a, base), map[o := t[k]], Alloc(b, base + Total(a) + f.size), o, t[k]);
  }

  /** The run that a deletion frees: from the left free neighbour, if any, to the right one. */
  function LeftEnd(t: Table, k: nat): nat
    requires k < |t|
  {
    if k > 0 && t[k - 1].Free? then k - 1 else k
  }

  function RightEnd(t: Table, k: nat): nat
    requires k < |t|
  {
    if k + 1 < |t| && t[k + 1].Free? then k + 2 else k + 1
  }

  lemma {:induction false} DeleteShape(t: Table, k: nat, base: nat) returns (f: Area, m: Table, o: nat)
    requires k < |t| && t[k].Part? && Canonical(t)
    ensures m == t[LeftEnd(t, k)..RightEnd(t, k)] && f == Free(Total(m)) && o == base + Total(t[..k])
    ensures t == t[..LeftEnd(t, k)] + (m + t[RightEnd(t, k)..])
    ensures Delete(t, k) == t[..LeftEnd(t, k)] + ([f] + t[RightEnd(t, k)..])
    ensures Alloc(m, base + Total(t[..LeftEnd(t, k)])) == map[o := t[k]]
  {
    hide Canonical, Delete, Alloc, Total;
    var i, j := LeftEnd(t, k), RightEnd(t, k);
    m := t[i..j];
    f := Free(Total(m));
    o := base + Total(t[..k]);
    var l, r := t[i..k], t[k + 1..j];
    Sides(t, i, k, j);
    FreeRun(l, base);
    FreeRun(r, base);
    MiddleAlloc(l, t[k], r, base + Total(t[..i]));
    TotalConcat(l, [t[k]] + r);
    TotalConcat([t[k]], r);
    TotalConcat(t[..i], l);
    DeleteIs(t, k, l, r);
  }

  lemma Sides(t: Table, i: nat, k: nat, j: nat)
    requires i <= k < j <= |t|
    ensures t == t[..i] + (t[i..j] + t[j..]) && t[i..j] == t[i..k] + ([t[k]] + t[k + 1..j])
    ensures t[..k] == t[..i] + t[i..k]
  {
  }

  lemma DeleteIs(t: Table, k: nat, l: Table, r: Table)
    requires k < |t| && t[k].Part? && Canonical(t) && l == t[LeftEnd(t, k)..k] && r == t[k + 1..RightEnd(t, k)]
    requires Total(l) == (if l == [] then 0 else l[0].size) && Total(r) == (if r == [] then 0 else r[0].size)
    ensures Delete(t, k) == t[..LeftEnd(t, k)] + ([Free(Total(l) + t[k].size + Total(r))] + t[RightEnd(t, k)..])
  {
    SizesPositive(t);
    hide Total, Canonical;
  }

  lemma SizesPositive(t: Table)
    requires Canonical(t)
    ensures forall i :: 0 <= i < |t| ==> t[i].size > 0
  {
  }

  lemma MiddleAlloc(l: Table, p: Area, r: Table, base: nat)
    requires |l| <= 1 && |r| <= 1 && p.Part?
    requires (forall i :: 0 <= i < |l| ==> l[i].Free?) && forall i :: 0 <= i < |r| ==> r[i].Free?
    ensures Alloc(l + ([p] + r), base) == map[base + Total(l) := p]
    ensures Total([p]) == p.size
  {
    FreeRun(l, base);
    FreeRun(r, base + Total(l) + p.size);
    AllocConcat(l, [p] + r, base);
    AllocConcat([p], r, base + Total(l));
    assert [p][1..] == [];
  }

  /** The deleted partition starts neither before nor after the free run it becomes. */
  lemma DeleteOutside(t: Table, k: nat, i: nat, j: nat, base: nat)
    requires i <= k < j <= |t| && Canonical(t)
    ensures base + Total(t[..k]) !in Alloc(t[..i], base)
    ensures base + Total(t[..k]) !in Alloc(t[j..], base + Total(t[..j]))
    ensures Total(t[..j]) == Total(t[..i]) + Total(t[i..j])
  {
    var o := base + Total(t[..k]);
    TotalPrefix(t, i, k);
    TotalPrefix(t, k, k + 1);
    TotalPrefix(t, k + 1, j);
    assert t[..j] == t[..i] + t[i..j];
    TotalConcat(t[..i], t[i..j]);
    if o in Alloc(t[..i], base) { AllocRangePositive(t[..i], base, o); assert false; }
    if o in Alloc(t[j..], base + Total(t[..j])) { AllocRange(t[j..], base + Total(t[..j]), o); assert false; }
  }

  lemma FreeRun(l: Table, base: nat)
    requires |l| <= 1 && forall i :: 0 <= i < |l| ==> l[i].Free?
    ensures l != [] ==> l == [l[0]]
    ensures Total(l) == (if l == [] then 0 else l[0].size) && Alloc(l, base) == map[]
  {
    if l != [] { assert l[1..] == []; }
  }

  lemma DeleteCanonical(t: Table, k: nat)
    requires k < |t| && t[k].Part? && Canonical(t)
    ensures Canonical(Delete(t, k))
  {
    var i, j, s := LeftEnd(t, k), RightEnd(t, k), Delete(t, k);
    forall x | 0 <= x < |s|
      ensures s[x].size > 0 && (x + 1 < |s| ==> s[x].Part? || s[x + 1].Part?)
    {
      DeleteAt(t, k, x);
      if x + 1 < |s| { DeleteAt(t, k, x + 1); }
      if x + 1 < i {
        NoTwoFree(t, x);
      } else if x + 1 == i {
        if i < k { NoTwoFree(t, i - 1); }
      } else if x == i {
        if k + 1 < j < |t| { NoTwoFree(t, j - 1); }
      } else if x + 1 < |s| {
        NoTwoFree(t, x - i - 1 + j);
      }
    }
  }

  lemma DeleteAt(t: Table, k: nat, x: nat)
    requires k < |t| && t[k].Part? && Canonical(t) && x < |Delete(t, k)|
    ensures var s, i, j := Delete(t, k), LeftEnd(t, k), RightEnd(t, k);
            && |s| == i + 1 + |t| - j
            && if x < i then s[x] == t[x]
               else if x == i then s[x].Free? && s[x].size >= t[k].size
               else s[x] == t[x - i - 1 + j]
  {
    SizesPositive(t);
  }

  /** Deleting a partition that was just made gives back the table there was. */
  lemma {:induction false} DeleteUndoesSplit(t: Table, k: nat, off: nat, p: Area)
    requires k < |t| && t[k].Free? && p.Part? && p.size > 0 && off + p.size <= t[k].size && Canonical(t)
    ensures var j := if off == 0 then k else k + 1;
            j < |Split(t, k, off, p)| && Delete(Split(t, k, off, p), j) == t
  {
    hide Canonical, Delete, Alloc;
    var s := Split(t, k, off, p);
    var j := if off == 0 then k else k + 1;
    SplitIsTiling(t, k, off, p, 0);
    DeleteIsTiling(s, j, 0);
    var o := Total(t[..k]) + off;
    assert s[..j] == t[..k] + (if off == 0 then [] else [Free(off)]);
    TotalConcat(t[..k], if off == 0 then [] else [Free(off)]);
    assert Total(s[..j]) == o;
    if o in Alloc(t, 0) {
      AllocMeetsFree(t, k, o);
      assert false;
    }
    UniqueTiling(Delete(s, j), t, 0);
  }

  /** No partition starts inside an unallocated area. */
  lemma {:induction false} AllocMeetsFree(t: Table, k: nat, o: nat)
    requires k < |t| && t[k].Free? && Canonical(t) && Total(t[..k]) <= o < Total(t[..k]) + t[k].size
    ensures o !in Alloc(t, 0)
  {
    var a, b := t[..k], t[k + 1..];
    assert t == a + ([t[k]] + b);
    FreeRun([t[k]], Total(a));
    OutsideMiddle(t, k, 0, o);
    ReplaceMiddle(a, [t[k]], [t[k]], b, 0);
  }

  // ----- finding the hole for a partition

  /** The space [off, off + size) meets no partition of t. */
  ghost predicate Clear(t: Table, off: nat, size: nat) {
    forall o :: o in Alloc(t, 0) ==> off + size <= o || o + Alloc(t, 0)[o].size <= off
  }

  /**
   The scan stops at the first area that ends at or after the end of the new
   partition.  If the space is clear, that area is unallocated and the
   partition starts in it.
   */
  lemma ScanStopsInHole(t: Table, k: nat, off: nat, size: nat)
    requires Canonical(t) && k < |t| && size > 0 && Clear(t, off, size)
    requires Total(t[..k]) < off + size <= Total(t[..k]) + t[k].size
    ensures t[k].Free? && Total(t[..k]) <= off
  {
    if t[k].Part? {
      AllocAt(t, 0, k);
    }
    if off < Total(t[..k]) {
      NoTwoFree(t, k - 1);
      TotalPrefix(t, k - 1, k);
      AllocAt(t, 0, k - 1);
      assert false;
    }
  }

  lemma {:induction false} TotalPrefix(t: Table, i: nat, j: nat)
    requires i <= j <= |t|
    ensures Total(t[..i]) <= Total(t[..j]) <= Total(t)
    ensures i < |t| ==> Total(t[..i + 1]) == Total(t[..i]) + t[i].size
  {
    assert t[..j] == t[..i] + t[i..j];
    TotalConcat(t[..i], t[i..j]);
    assert t == t[..j] + t[j..];
    TotalConcat(t[..j], t[j..]);
    if i < |t| {
      assert t[..i + 1] == t[..i] + [t[i]];
      TotalConcat(t[..i], [t[i]]);
      assert Total([t[i]]) == t[i].size;
    }
  }
}
