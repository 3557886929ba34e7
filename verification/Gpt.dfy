/**
 The entries of the GUID partition table (section 5.3 of the UEFI
 specification) as gxsetup/partition.c reads and writes them.
 */
module Gpt {
  import opened PartitionGeometry

  /** Blocks of 512 bytes in a megabyte. */
  const LBA_PER_MB := 2048
  const MNTINFO := 0x2_0000_0000_0000   // bit 49
  const NAME_LENGTH := 36

  const NULL_TYPE: Guid := [0, 0, 0, 0, 0, 0, 0, 0, 0, 0, 0, 0, 0, 0, 0, 0]
  const NEW_TYPE: Guid := [255, 255, 255, 255, 255, 255, 255, 255, 255, 255, 255, 255, 255, 255, 255, 255]
  const ROOT_TYPE: Guid :=
    [0x9C, 0xAD, 0xC1, 0x81, 0xC4, 0xBD, 0x09, 0x48, 0x8D, 0x9F, 0xDC, 0xB2, 0xA9, 0xB8, 0x5D, 0x01]
  const GXFS_TYPE: Guid :=
    [0x2e, 0x2f, 0x8a, 0xa3, 0xee, 0x61, 0x6f, 0x49, 0xb1, 0x9f, 0xcd, 0xa5, 0x5d, 0x34, 0xc0, 0xf8]

  const ROOT: CString := ['/' as nat]

  /** `name` holds the 36 units of the partition name; zeros at its end may be left out. */
  datatype GptEntry = GptEntry(
    typ: Guid, partid: Guid, startLBA: nat, endLBA: nat, attr: nat, name: seq<nat>)

  const NULL_ENTRY := GptEntry(NULL_TYPE, NULL_TYPE, 0, 0, 0, [])

  predicate InUse(e: GptEntry) { e.typ != NULL_TYPE }

  predicate HasMountInfo(e: GptEntry) { e.attr / MNTINFO % 2 == 1 }

  /** Offset and size of an entry in MB, the first MB being the header's. */
  function OffMB(e: GptEntry): int { e.startLBA / LBA_PER_MB - 1 }
  function SizeMB(e: GptEntry): int { (e.endLBA - e.startLBA + 1) / LBA_PER_MB }

  // ----- strings

  /** A byte as a signed char stored into a 16-bit unit, and back. */
  function Widen(c: nat): nat { if c < 128 then c else c + 0xFF00 }
  function Narrow(u: nat): nat { u % 256 }

  function WidenAll(s: CString): seq<nat> { seq(|s|, i requires 0 <= i < |s| => Widen(s[i])) }

  /** The C string in an array of units, each cut to a byte: up to the first zero, or all of it. */
  function NarrowString(units: seq<nat>): (s: CString)
    ensures forall i :: 0 <= i < |s| ==> s[i] != 0
  {
    if units == [] || Narrow(units[0]) == 0 then [] else [Narrow(units[0])] + NarrowString(units[1..])
  }

  predicate IsCString(s: CString) { forall i :: 0 <= i < |s| ==> 0 < s[i] < 256 }

  lemma {:induction false} NarrowUndoesWiden(s: CString)
    requires IsCString(s)
    ensures NarrowString(WidenAll(s)) == s
  {
    if s != [] {
      assert WidenAll(s)[1..] == WidenAll(s[1..]);
      NarrowUndoesWiden(s[1..]);
    }
  }

  // ----- reading and writing one entry

  function Take36(s: seq<nat>): seq<nat> { if |s| <= NAME_LENGTH then s else s[..NAME_LENGTH] }

  /** The part of splitArea that fills in a partition from its entry. */
  function PartOf(e: GptEntry): (p: Area)
    requires SizeMB(e) >= 0
    ensures p.Part? && p.size == SizeMB(e)
  {
    if e.typ == ROOT_TYPE then Part(SizeMB(e), Gxfs, ROOT, false, e.partid, e.typ)
    else if e.typ == GXFS_TYPE then
      Part(SizeMB(e), Gxfs, if HasMountInfo(e) then NarrowString(Take36(e.name)) else [], false, e.partid, e.typ)
    else Part(SizeMB(e), Unused, [], false, e.partid, e.typ)
  }

  /** The body of the table-writing loop of partFlush, for a partition at this MB offset on the disk. */
  function WriteEntry(p: Area, offset: nat): (e: GptEntry)
    requires p.Part? && p.size > 0
    ensures e.startLBA == offset * LBA_PER_MB && e.endLBA == (offset + p.size) * LBA_PER_MB - 1
  {
    var start, end := offset * LBA_PER_MB, (offset + p.size) * LBA_PER_MB - 1;
    if p.use == Gxfs && p.mntpoint == ROOT then GptEntry(ROOT_TYPE, p.partid, start, end, 0, [])
    else if p.use == Gxfs && p.mntpoint != [] then
      GptEntry(GXFS_TYPE, p.partid, start, end, MNTINFO, WidenAll(Take36(p.mntpoint)))
    else GptEntry(p.origtype, p.partid, start, end, 0, [])
  }

  /** What a partition is after it has been written and read again. */
  function Reloaded(p: Area): (r: Area)
    requires p.Part?
    ensures r.Part? && r.size == p.size
  {
    if p.use == Gxfs && p.mntpoint == ROOT then Part(p.size, Gxfs, ROOT, false, p.partid, ROOT_TYPE)
    else if p.use == Gxfs && p.mntpoint != [] then Part(p.size, Gxfs, Take36(p.mntpoint), false, p.partid, GXFS_TYPE)
    else if p.origtype == ROOT_TYPE then Part(p.size, Gxfs, ROOT, false, p.partid, ROOT_TYPE)
    else if p.origtype == GXFS_TYPE then Part(p.size, Gxfs, [], false, p.partid, GXFS_TYPE)
    else Part(p.size, Unused, [], false, p.partid, p.origtype)
  }

  lemma ReadBack(p: Area, offset: nat)
    requires p.Part? && p.size > 0 && IsCString(p.mntpoint) && offset > 0
    ensures var e := WriteEntry(p, offset);
            OffMB(e) == offset - 1 && SizeMB(e) == p.size && PartOf(e) == Reloaded(p)
  {
    var e := WriteEntry(p, offset);
    assert e.endLBA - e.startLBA + 1 == p.size * LBA_PER_MB;
    NarrowUndoesWiden(Take36(p.mntpoint));
    TypesDiffer();
  }

  lemma TypesDiffer()
    ensures ROOT_TYPE != GXFS_TYPE && ROOT_TYPE != NULL_TYPE && GXFS_TYPE != NULL_TYPE && NEW_TYPE != NULL_TYPE
    ensures NEW_TYPE != ROOT_TYPE && NEW_TYPE != GXFS_TYPE
  {
    assert ROOT_TYPE[0] != GXFS_TYPE[0] && ROOT_TYPE[0] != 0 && GXFS_TYPE[0] != 0 && NEW_TYPE[0] == 255;
  }

  /** The use and mount point that a caller can rely on to survive a write. */
  predicate Survives(p: Area)
    requires p.Part?
  {
    if p.use == Gxfs then
      p.mntpoint == ROOT || (if p.mntpoint == [] then p.origtype == GXFS_TYPE else |p.mntpoint| <= NAME_LENGTH)
    else p.mntpoint == [] && p.origtype != ROOT_TYPE && p.origtype != GXFS_TYPE
  }

  /** A write keeps size and identity of every partition, and use and mount point exactly of these. */
  lemma SurvivesIsExact(p: Area)
    requires p.Part? && IsCString(p.mntpoint)
    ensures var r := Reloaded(p);
            && r.Part? && r.size == p.size && r.partid == p.partid && !r.format
            && (r.use == p.use && r.mntpoint == p.mntpoint <==> Survives(p))
  {
    TypesDiffer();
  }

  /** The editor and the loader make no mount points that are too long, so that this is left of the condition. */
  lemma SurvivesInTable(p: Area)
    requires p.Part? && CanWrite(p)
    ensures Survives(p) <==>
      if p.use == Gxfs then p.mntpoint != [] || p.origtype == GXFS_TYPE
      else p.mntpoint == [] && p.origtype != ROOT_TYPE && p.origtype != GXFS_TYPE
  {
    TypesDiffer();
  }

  // ----- what loading and writing do to the fields of an entry

  /** The mount point that 36 units of a name spell: their low bytes, up to the first that is zero. */
  ghost predicate SpelledBy(m: CString, name: seq<nat>) {
    && |m| <= NAME_LENGTH && |m| <= |name|
    && (forall i :: 0 <= i < |m| ==> m[i] == name[i] % 256 && m[i] != 0)
    && (|m| == NAME_LENGTH || |m| == |name| || name[|m|] % 256 == 0)
  }

  /** A partition loaded from an entry: what it is, mounted where, and that nothing else is made up. */
  ghost predicate IsLoadedFrom(p: Area, e: GptEntry) {
    && p.Part? && p.size == (e.endLBA - e.startLBA + 1) / LBA_PER_MB
    && p.partid == e.partid && p.origtype == e.typ && !p.format
    && (p.use == Gxfs <==> e.typ == ROOT_TYPE || e.typ == GXFS_TYPE)
    && (e.typ == ROOT_TYPE ==> p.mntpoint == ['/' as nat])
    && (e.typ == GXFS_TYPE && e.attr / 0x2_0000_0000_0000 % 2 == 0 ==> p.mntpoint == [])
    && (e.typ == GXFS_TYPE && e.attr / 0x2_0000_0000_0000 % 2 == 1 ==> SpelledBy(p.mntpoint, e.name))
    && (e.typ != ROOT_TYPE && e.typ != GXFS_TYPE ==> p.mntpoint == [])
  }

  lemma {:induction false} NarrowSpells(units: seq<nat>)
    ensures var m := NarrowString(units);
      && |m| <= |units|
      && (forall i :: 0 <= i < |m| ==> m[i] == units[i] % 256 && m[i] != 0)
      && (|m| == |units| || units[|m|] % 256 == 0)
  {
    if units != [] && Narrow(units[0]) != 0 { NarrowSpells(units[1..]); }
  }

  /** So it is with what splitArea makes of every entry. */
  lemma {:induction false} PartIsLoaded(e: GptEntry)
    requires SizeMB(e) >= 0
    ensures IsLoadedFrom(PartOf(e), e)
  {
    TypesDiffer();
    NarrowSpells(Take36(e.name));
  }

  /** An entry written for a partition that starts at this MB of the disk. */
  ghost predicate IsWrittenFor(e: GptEntry, p: Area, offset: nat) {
    && p.Part? && e.startLBA == offset * LBA_PER_MB && e.endLBA + 1 == (offset + p.size) * LBA_PER_MB
    && e.partid == p.partid
    && var mounted := p.use == Gxfs && p.mntpoint != [];
    && e.typ == (if !mounted then p.origtype else if p.mntpoint == ['/' as nat] then ROOT_TYPE else GXFS_TYPE)
    && e.attr == (if mounted && p.mntpoint != ['/' as nat] then 0x2_0000_0000_0000 else 0)
    && (!mounted || p.mntpoint == ['/' as nat] ==> e.name == [])
    && (mounted && p.mntpoint != ['/' as nat] ==>
          && |e.name| == (if |p.mntpoint| < NAME_LENGTH then |p.mntpoint| else NAME_LENGTH)
          && forall i :: 0 <= i < |e.name| ==>
               e.name[i] == if p.mntpoint[i] < 128 then p.mntpoint[i] else p.mntpoint[i] + 0xFF00)
  }

  lemma EntryIsWritten(p: Area, offset: nat)
    requires p.Part? && p.size > 0
    ensures IsWrittenFor(WriteEntry(p, offset), p, offset)
  {
  }

  // ----- whole tables

  /** The table-writing loop of partFlush: the entries of the partitions, the first area being at this MB. */
  function Flush(t: Table, offset: nat): seq<GptEntry>
    requires forall i :: 0 <= i < |t| ==> t[i].size > 0
  {
    if t == [] then []
    else (if t[0].Part? then [WriteEntry(t[0], offset)] else []) + Flush(t[1..], offset + t[0].size)
  }

  /** An entry that ends within the usable space of total MB; the load loop finds no place for one that does not. */
  predicate Fits(e: GptEntry, total: nat) { OffMB(e) + SizeMB(e) <= total }

  predicate Loads(e: GptEntry, total: nat) { InUse(e) && Fits(e, total) }

  /** The partitions that entries stand for, by offset; of two at one offset, the later. */
  ghost function EntryMap(es: seq<GptEntry>, total: nat): map<int, Area>
    requires forall i :: 0 <= i < |es| && InUse(es[i]) ==> SizeMB(es[i]) >= 0
  {
    if es == [] then map[]
    else
      var e := es[|es| - 1];
      var m := EntryMap(es[..|es| - 1], total);
      if Loads(e, total) then m[OffMB(e) := PartOf(e)] else m
  }

  /** An entry of a megabyte or more, behind the first one. */
  ghost predicate IsSound(e: GptEntry) {
    e.startLBA >= LBA_PER_MB && e.endLBA >= e.startLBA && SizeMB(e) > 0
  }

  ghost predicate Apart(a: GptEntry, b: GptEntry) {
    OffMB(a) + SizeMB(a) <= OffMB(b) || OffMB(b) + SizeMB(b) <= OffMB(a)
  }

  /** The entries in use, in any order, do not overlap those that fit the disk. */
  ghost predicate Loadable(es: seq<GptEntry>, total: nat) {
    && (forall i :: 0 <= i < |es| && InUse(es[i]) ==> IsSound(es[i]))
    && (forall i, j :: 0 <= i < j < |es| && InUse(es[i]) && InUse(es[j]) ==>
          Fits(es[i], total) || Fits(es[j], total) ==> Apart(es[i], es[j]))
  }

  /** The space of a further entry is clear of everything loaded before it. */
  lemma {:induction false} EntryMapFrom(es: seq<GptEntry>, total: nat, o: int)
    requires Loadable(es, total) && o in EntryMap(es, total)
    ensures exists i ::
      && 0 <= i < |es| && Loads(es[i], total) && OffMB(es[i]) == o
      && EntryMap(es, total)[o] == PartOf(es[i])
  {
    var n := |es| - 1;
    if Loads(es[n], total) && OffMB(es[n]) == o {
    } else {
      EntryMapFrom(es[..n], total, o);
      var i :| 0 <= i < n && Loads(es[..n][i], total) && OffMB(es[..n][i]) == o
               && EntryMap(es[..n], total)[o] == PartOf(es[..n][i]);
      assert es[i] == es[..n][i];
    }
  }

  lemma {:induction false} EntryMapHas(es: seq<GptEntry>, total: nat, i: nat)
    requires Loadable(es, total) && i < |es| && Loads(es[i], total)
    ensures OffMB(es[i]) in EntryMap(es, total) && EntryMap(es, total)[OffMB(es[i])] == PartOf(es[i])
  {
    var n := |es| - 1;
    if i < n {
      assert es[..n][i] == es[i];
      EntryMapHas(es[..n], total, i);
    }
  }

  /** The order of the entries does not matter. */
  lemma EntryMapUnordered(a: seq<GptEntry>, b: seq<GptEntry>, total: nat)
    requires Loadable(a, total) && Loadable(b, total)
    requires forall e :: InUse(e) ==> (e in a <==> e in b)
    ensures EntryMap(a, total) == EntryMap(b, total)
  {
    forall o | o in EntryMap(a, total)
      ensures o in EntryMap(b, total) && EntryMap(a, total)[o] == EntryMap(b, total)[o]
    {
      EntryMapSame(a, b, total, o);
    }
    forall o | o in EntryMap(b, total) ensures o in EntryMap(a, total) {
      EntryMapSame(b, a, total, o);
    }
  }

  lemma EntryMapSame(a: seq<GptEntry>, b: seq<GptEntry>, total: nat, o: int)
    requires Loadable(a, total) && Loadable(b, total) && o in EntryMap(a, total)
    requires forall e :: e in a && InUse(e) ==> e in b
    ensures o in EntryMap(b, total) && EntryMap(a, total)[o] == EntryMap(b, total)[o]
  {
    EntryMapFrom(a, total, o);
    var i :| 0 <= i < |a| && Loads(a[i], total) && OffMB(a[i]) == o && EntryMap(a, total)[o] == PartOf(a[i]);
    assert a[i] in b;
    var j :| 0 <= j < |b| && b[j] == a[i];
    EntryMapHas(b, total, j);
  }

  // ----- writing, then loading

  function ReloadAll(t: Table): (r: Table)
    ensures |r| == |t| && forall i :: 0 <= i < |t| ==> r[i] == if t[i].Part? then Reloaded(t[i]) else t[i]
  {
    seq(|t|, i requires 0 <= i < |t| => if t[i].Part? then Reloaded(t[i]) else t[i])
  }

  /** An area that can be written so that it is seen again. */
  ghost predicate CanWrite(a: Area) {
    a.size > 0 && (a.Part? ==> IsCString(a.mntpoint) && |a.mntpoint| <= NAME_LENGTH && a.origtype != NULL_TYPE)
  }

  ghost predicate Writable(t: Table) {
    forall i :: 0 <= i < |t| ==> CanWrite(t[i])
  }

  lemma WritableSizes(t: Table)
    requires Writable(t)
    ensures forall i :: 0 <= i < |t| ==> t[i].size > 0
  {
  }

  lemma {:induction false} LoadedCanBeWritten(e: GptEntry)
    requires InUse(e) && SizeMB(e) > 0
    ensures CanWrite(PartOf(e))
  {
    TypesDiffer();
    NarrowIsCString(Take36(e.name));
  }

  lemma {:induction false} NarrowIsCString(units: seq<nat>)
    ensures IsCString(NarrowString(units)) && |NarrowString(units)| <= |units|
  {
    if units != [] { NarrowIsCString(units[1..]); }
  }

  lemma SplitWritable(t: Table, k: nat, off: nat, p: Area)
    requires k < |t| && t[k].Free? && p.Part? && CanWrite(p) && off + p.size <= t[k].size && Writable(t)
    ensures Writable(Split(t, k, off, p))
  {
    var s, m := Split(t, k, off, p), Pieces(t[k].size, off, p);
    forall i | 0 <= i < |s| ensures CanWrite(s[i]) {
      assert s[i] == if i < k then t[i] else if i < k + |m| then m[i - k] else t[i - |m| + 1];
    }
  }

  lemma DeleteWritable(t: Table, k: nat)
    requires k < |t| && t[k].Part? && Canonical(t) && Writable(t)
    ensures Writable(Delete(t, k))
  {
    hide Delete, Canonical;
    var s := Delete(t, k);
    forall x | 0 <= x < |s| ensures CanWrite(s[x]) {
      DeleteAt(t, k, x);
      var i, j := LeftEnd(t, k), RightEnd(t, k);
      assert CanWrite(t[if x < i then x else if x == i then k else x - i - 1 + j]);
    }
  }

  lemma {:induction false} FlushFits(t: Table, base: nat, i: nat)
    requires Writable(t) && i < |Flush(t, base + 1)|
    ensures var e := Flush(t, base + 1)[i];
            && InUse(e) && e.startLBA >= LBA_PER_MB && e.endLBA >= e.startLBA && SizeMB(e) > 0
            && base <= OffMB(e) && OffMB(e) + SizeMB(e) <= base + Total(t)
            && e.endLBA < (base + 1 + Total(t)) * LBA_PER_MB
  {
    TypesDiffer();
    var rest := Flush(t[1..], base + t[0].size + 1);
    if t[0].Part? {
      ReadBack(t[0], base + 1);
      if i > 0 {
        assert Flush(t, base + 1)[i] == rest[i - 1];
        FlushFits(t[1..], base + t[0].size, i - 1);
      }
    } else {
      FlushFits(t[1..], base + t[0].size, i);
    }
  }

  lemma {:induction false} FlushApart(t: Table, base: nat, i: nat, j: nat)
    requires Writable(t) && i < j < |Flush(t, base + 1)|
    ensures var es := Flush(t, base + 1); OffMB(es[i]) + SizeMB(es[i]) <= OffMB(es[j]) && es[i].endLBA < es[j].startLBA
  {
    var es, rest := Flush(t, base + 1), Flush(t[1..], base + t[0].size + 1);
    if t[0].Part? {
      ReadBack(t[0], base + 1);
      assert es[j] == rest[j - 1];
      if i == 0 {
        FlushFits(t[1..], base + t[0].size, j - 1);
      } else {
        assert es[i] == rest[i - 1];
        FlushApart(t[1..], base + t[0].size, i - 1, j - 1);
      }
    } else {
      FlushApart(t[1..], base + t[0].size, i, j);
    }
  }

  /** What partFlush writes can be loaded. */
  lemma FlushLoadable(t: Table)
    requires Writable(t)
    ensures Loadable(Flush(t, 1), Total(t))
  {
    var es := Flush(t, 1);
    forall i | 0 <= i < |es| ensures IsSound(es[i]) && Fits(es[i], Total(t)) {
      FlushFits(t, 0, i);
    }
    forall i, j | 0 <= i < j < |es| ensures Apart(es[i], es[j]) {
      FlushApart(t, 0, i, j);
    }
  }

  lemma {:induction false} ReloadedAlloc(t: Table, base: nat, o: nat) returns (i: nat)
    requires Writable(t) && o in Alloc(ReloadAll(t), base)
    ensures var es := Flush(t, base + 1);
            i < |es| && OffMB(es[i]) == o && SizeMB(es[i]) >= 0 && PartOf(es[i]) == Alloc(ReloadAll(t), base)[o]
  {
    hide WriteEntry, PartOf, Reloaded, OffMB, SizeMB;
    var r := ReloadAll(t);
    var rest := Alloc(ReloadAll(t[1..]), base + t[0].size);
    assert r[1..] == ReloadAll(t[1..]) && r[0].size == t[0].size;
    if o in rest {
      i := ReloadedAlloc(t[1..], base + t[0].size, o);
      if t[0].Part? { i := i + 1; }
    } else {
      ReadBack(t[0], base + 1);
      i := 0;
    }
  }

  lemma {:induction false} FlushInAlloc(t: Table, base: nat, i: nat)
    requires Writable(t) && i < |Flush(t, base + 1)|
    ensures OffMB(Flush(t, base + 1)[i]) in Alloc(ReloadAll(t), base)
  {
    var es, rest := Flush(t, base + 1), Flush(t[1..], base + t[0].size + 1);
    assert ReloadAll(t)[1..] == ReloadAll(t[1..]);
    if t[0].Part? && i == 0 {
      ReadBack(t[0], base + 1);
    } else {
      var j := if t[0].Part? then i - 1 else i;
      assert es[i] == rest[j];
      FlushInAlloc(t[1..], base + t[0].size, j);
    }
  }

  /** Padding with unused entries changes nothing. */
  lemma {:induction false} PaddingIgnored(es: seq<GptEntry>, pad: seq<GptEntry>, total: nat)
    requires Loadable(es, total) && forall i :: 0 <= i < |pad| ==> !InUse(pad[i])
    ensures Loadable(es + pad, total) && EntryMap(es + pad, total) == EntryMap(es, total)
    decreases |pad|
  {
    if pad == [] {
      assert es + pad == es;
    } else {
      var p := pad[..|pad| - 1];
      PaddingIgnored(es, p, total);
      assert (es + pad)[..|es + pad| - 1] == es + p;
    }
  }

  /**
   Loading back what was written.  Any canonical tiling of the same space that
   holds exactly the partitions of the written entries is the old table with
   each partition as `Reloaded` says: same areas at the same places, same
   partition ids.
   */
  lemma LoadedIsReloaded(t: Table, pad: seq<GptEntry>, loaded: Table)
    requires Canonical(t) && Writable(t) && forall i :: 0 <= i < |pad| ==> !InUse(pad[i])
    requires Canonical(loaded) && Total(loaded) == Total(t)
    requires Loadable(Flush(t, 1) + pad, Total(t)) && Alloc(loaded, 0) == EntryMap(Flush(t, 1) + pad, Total(t))
    ensures loaded == ReloadAll(t)
  {
    FlushLoadable(t);
    PaddingIgnored(Flush(t, 1), pad, Total(t));
    ReloadCanonical(t);
    FlushMap(t);
    UniqueTiling(loaded, ReloadAll(t), 0);
  }

  /** The written entries stand for the reloaded partitions, each at its old place. */
  lemma FlushMap(t: Table)
    requires Writable(t)
    ensures Loadable(Flush(t, 1), Total(t)) && Alloc(ReloadAll(t), 0) == EntryMap(Flush(t, 1), Total(t))
  {
    FlushLoadable(t);
    hide WriteEntry, PartOf, Reloaded, OffMB, SizeMB, Alloc, Flush, EntryMap, Loadable, Fits, IsSound;
    forall o: nat | o in Alloc(ReloadAll(t), 0)
      ensures o in EntryMap(Flush(t, 1), Total(t)) && EntryMap(Flush(t, 1), Total(t))[o] == Alloc(ReloadAll(t), 0)[o]
    {
      FlushMapHas(t, o);
    }
    forall o | o in EntryMap(Flush(t, 1), Total(t)) ensures o >= 0 && o in Alloc(ReloadAll(t), 0) {
      FlushMapOnly(t, o);
    }
  }

  lemma FlushMapHas(t: Table, o: nat)
    requires Writable(t) && o in Alloc(ReloadAll(t), 0) && Loadable(Flush(t, 1), Total(t))
    ensures o in EntryMap(Flush(t, 1), Total(t)) && EntryMap(Flush(t, 1), Total(t))[o] == Alloc(ReloadAll(t), 0)[o]
  {
    var i := ReloadedAlloc(t, 0, o);
    FlushFits(t, 0, i);
    EntryMapHas(Flush(t, 1), Total(t), i);
  }

  lemma FlushMapOnly(t: Table, o: int)
    requires Writable(t) && Loadable(Flush(t, 1), Total(t)) && o in EntryMap(Flush(t, 1), Total(t))
    ensures o >= 0 && o in Alloc(ReloadAll(t), 0)
  {
    hide WriteEntry, PartOf, SizeMB, Alloc, Flush, ReloadAll, Writable;
    WritableSizes(t);
    var es := Flush(t, 1);
    EntryMapFrom(es, Total(t), o);
    var i :| 0 <= i < |es| && Loads(es[i], Total(t)) && OffMB(es[i]) == o;
    FlushFits(t, 0, i);
    FlushInAlloc(t, 0, i);
  }

  lemma {:induction false} ReloadCanonical(t: Table)
    requires Canonical(t)
    ensures Canonical(ReloadAll(t)) && Total(ReloadAll(t)) == Total(t)
  {
    if t != [] {
      assert ReloadAll(t)[1..] == ReloadAll(t[1..]);
      CanonicalTail(t);
      ReloadCanonical(t[1..]);
      forall i | 0 <= i < |t| - 1 ensures ReloadAll(t)[i].Part? || ReloadAll(t)[i + 1].Part? {
        NoTwoFree(t, i);
      }
    }
  }

  /** How many partitions come before area k: the number of its device, and of its entry. */
  function Slot(t: Table, k: nat): nat
    requires k <= |t|
  {
    if k == 0 then 0 else Slot(t, k - 1) + (if t[k - 1].Part? then 1 else 0)
  }

  lemma {:induction false} FlushSlot(t: Table, base: nat, k: nat)
    requires k < |t| && t[k].Part? && forall i :: 0 <= i < |t| ==> t[i].size > 0
    ensures Slot(t, k) < |Flush(t, base)| && Flush(t, base)[Slot(t, k)] == WriteEntry(t[k], base + Total(t[..k]))
  {
    hide WriteEntry;
    if k > 0 {
      SlotTail(t, k);
      FlushSlot(t[1..], base + t[0].size, k - 1);
      assert t[..k][1..] == t[1..][..k - 1];
    }
  }

  lemma {:induction false} SlotTail(t: Table, k: nat)
    requires 0 < k <= |t|
    ensures Slot(t, k) == (if t[0].Part? then 1 else 0) + Slot(t[1..], k - 1)
  {
    if k > 1 { SlotTail(t, k - 1); }
  }

  lemma NoSlot(t: Table)
    ensures Slot(t, 0) == 0
  {
  }

  /** How many partitions there are, and so entries. */
  function PartCount(t: Table): nat { Slot(t, |t|) }

  lemma {:induction false} FlushCount(t: Table, offset: nat)
    requires forall i :: 0 <= i < |t| ==> t[i].size > 0
    ensures |Flush(t, offset)| == PartCount(t)
  {
    hide WriteEntry, Slot;
    assert |t| == 0 ==> PartCount(t) == 0 by { NoSlot(t); }
    if t != [] {
      SlotTail(t, |t|);
      FlushCount(t[1..], offset + t[0].size);
    }
  }

  lemma {:induction false} CountConcat(a: Table, b: Table)
    ensures PartCount(a + b) == PartCount(a) + PartCount(b)
  {
    if a == [] {
      assert a + b == b;
    } else {
      SlotTail(a, |a|);
      SlotTail(a + b, |a + b|);
      assert (a + b)[1..] == a[1..] + b;
      CountConcat(a[1..], b);
    }
  }

  lemma OneArea(a: Area)
    ensures PartCount([a]) == if a.Part? then 1 else 0
  {
    assert Slot([a], 0) == 0;
  }

  /** A new partition is one more, a deleted one is one less. */
  lemma SplitCount(t: Table, k: nat, off: nat, p: Area)
    requires k < |t| && t[k].Free? && p.Part? && off + p.size <= t[k].size
    ensures PartCount(Split(t, k, off, p)) == PartCount(t) + 1
  {
    hide Slot, PartCount;
    var x: Table := if off == 0 then [] else [Free(off)];
    var z: Table := if off + p.size >= t[k].size then [] else [Free(t[k].size - p.size - off)];
    CountSides(t[..k], x + [p] + z, t[k + 1..]);
    CountSides(t[..k], [t[k]], t[k + 1..]);
    CountSides(x, [p], z);
    FreeCount(x);
    FreeCount(z);
    OneArea(p);
    OneArea(t[k]);
    assert t == t[..k] + [t[k]] + t[k + 1..];
    assert Split(t, k, off, p) == t[..k] + (x + [p] + z) + t[k + 1..];
  }

  lemma {:induction false} DeleteCount(t: Table, k: nat)
    requires k < |t| && t[k].Part? && Canonical(t)
    ensures PartCount(Delete(t, k)) + 1 == PartCount(t)
  {
    hide Slot, PartCount, Delete, Canonical;
    var i, j := LeftEnd(t, k), RightEnd(t, k);
    var f, m, o := DeleteShape(t, k, 0);
    CountSides(t[..i], m, t[j..]);
    CountSides(t[..i], [f], t[j..]);
    CountSides(t[i..k], [t[k]], t[k + 1..j]);
    FreeCount(t[i..k]);
    FreeCount(t[k + 1..j]);
    OneArea(t[k]);
    OneArea(f);
    assert m == t[i..k] + [t[k]] + t[k + 1..j];
    assert t == t[..i] + m + t[j..];
    assert Delete(t, k) == t[..i] + [f] + t[j..];
  }

  lemma CountSides(a: Table, m: Table, b: Table)
    ensures PartCount(a + m + b) == PartCount(a) + PartCount(m) + PartCount(b)
  {
    CountConcat(a + m, b);
    CountConcat(a, m);
  }

  lemma FreeCount(l: Table)
    requires |l| <= 1 && forall i :: 0 <= i < |l| ==> l[i].Free?
    ensures PartCount(l) == 0
  {
    if l != [] {
      OneArea(l[0]);
      assert l == [l[0]];
    }
  }

  // ----- where things lie on a new disk

  const MIB := 0x10_0000
  const SIZE_T := 0x1_0000_0000_0000_0000
  const ENTRY_SIZE := 128

  /** Arithmetic of size_t and uint64_t. */
  function Wrap(x: int): nat { x % SIZE_T }

  /**
   The load loop works out the offset of an entry in size_t. That is the offset exactly
   if the entry starts behind the first megabyte; before that it is 2^64 - 1.
   */
  lemma OffsetIsRight(e: GptEntry)
    requires e.startLBA < SIZE_T
    ensures Wrap(OffMB(e)) == OffMB(e) <==> e.startLBA >= LBA_PER_MB
    ensures e.startLBA < LBA_PER_MB ==> Wrap(OffMB(e)) == SIZE_T - 1
  {
  }

  datatype Header = Header(
    myLBA: nat, altLBA: nat, firstUseableLBA: nat, lastUseableLBA: nat, partListLBA: nat, numPartEnts: nat)

  function DiskSize(bytes: nat): nat { Wrap(bytes / MIB - 1) }

  /** newPartTable, for a disk of this many bytes. */
  function NewHeader(bytes: nat): Header {
    var d := DiskSize(bytes);
    Header(1, Wrap((d + 1) * 2 * 1024 - 1), 2 * 1024, Wrap(d * 2 * 1024), 2, (1 * 1024 * 1024 - 2 * 512) / 128)
  }

  function NewTableSize(bytes: nat): nat {
    var h := NewHeader(bytes);
    Wrap(h.lastUseableLBA - h.firstUseableLBA + 1) / LBA_PER_MB
  }

  /** The size driveDetected works out from a header. */
  function LoadedTableSize(h: Header): nat {
    Wrap(512 * Wrap(h.lastUseableLBA - h.firstUseableLBA + 1)) / (1024 * 1024)
  }

  /** A new table has space, and no more than the disk has, exactly on disks of three megabytes and up. */
  lemma NewTableSound(bytes: nat)
    requires bytes < 0x1000_0000_0000_0000
    ensures 0 < NewTableSize(bytes) <= bytes / MIB <==> bytes >= 3 * MIB
    ensures bytes >= 3 * MIB ==> NewTableSize(bytes) == bytes / MIB - 2 == LoadedTableSize(NewHeader(bytes))
  {
  }

  /** A range of bytes on the disk. */
  datatype Span = Span(from: int, to: int)

  ghost predicate Disjoint(a: Span, b: Span) { a.to <= b.from || b.to <= a.from }

  function HeaderSpan(lba: nat): Span { Span(lba * 512, lba * 512 + 512) }
  function EntrySpan(e: GptEntry): Span { Span(e.startLBA * 512, (e.endLBA + 1) * 512) }

  /** Where partFlush puts the two copies of the entry array. */
  function ArraySpan(h: Header): Span { Span(1024, 1024 + h.numPartEnts * ENTRY_SIZE) }
  function BackupArraySpan(bytes: nat, h: Header): Span {
    Span(DiskSize(bytes) * MIB + 512, DiskSize(bytes) * MIB + 512 + h.numPartEnts * ENTRY_SIZE)
  }

  lemma NewHeaderIs(bytes: nat)
    requires 3 * MIB <= bytes < 0x1000_0000_0000_0000
    ensures var d := bytes / MIB - 1;
      && d >= 2 && (d + 1) * MIB <= bytes && DiskSize(bytes) == d && NewTableSize(bytes) == d - 1
      && NewHeader(bytes) == Header(1, (d + 1) * LBA_PER_MB - 1, LBA_PER_MB, d * LBA_PER_MB, 2, 8184)
  {
    NewTableSound(bytes);
  }

  /**
   The layout of a disk partitioned by the installer: headers, entry arrays and
   partitions do not overlap and stay on the disk, and every partition is
   within the range the header declares usable.
   */
  lemma LayoutIsSound(bytes: nat, t: Table, i: nat)
    requires 3 * MIB <= bytes < 0x1000_0000_0000_0000
    requires Writable(t) && Total(t) == NewTableSize(bytes) && i < |Flush(t, 1)|
    ensures var h, e := NewHeader(bytes), Flush(t, 1)[i];
            && h.firstUseableLBA <= e.startLBA <= e.endLBA <= h.lastUseableLBA
            && Disjoint(EntrySpan(e), HeaderSpan(h.myLBA)) && Disjoint(EntrySpan(e), HeaderSpan(h.altLBA))
            && Disjoint(EntrySpan(e), ArraySpan(h)) && Disjoint(EntrySpan(e), BackupArraySpan(bytes, h))
            && Disjoint(HeaderSpan(h.myLBA), ArraySpan(h)) && Disjoint(HeaderSpan(h.altLBA), BackupArraySpan(bytes, h))
            && ArraySpan(h).from == h.partListLBA * 512 && HeaderSpan(h.altLBA).to <= bytes
            && forall j :: i < j < |Flush(t, 1)| ==> Disjoint(EntrySpan(e), EntrySpan(Flush(t, 1)[j]))
  {
    hide NewHeader, DiskSize, NewTableSize, Flush, Writable, SizeMB, OffMB;
    WritableSizes(t);
    FlushFits(t, 0, i);
    NewHeaderIs(bytes);
    forall j | i < j < |Flush(t, 1)| ensures Disjoint(EntrySpan(Flush(t, 1)[i]), EntrySpan(Flush(t, 1)[j])) {
      FlushApart(t, 0, i, j);
    }
  }
}
