/**
 The end of partFlush in gxsetup/partition.c: turning the mount points of all
 drives into the list of file systems to mount, shortest mount point first, and
 partUnmount, which undoes the mounts.
 */
module MountOrder {
  import opened PartitionGeometry
  import opened Gpt

  /** An area of a drive. */
  datatype Pos = Pos(drive: nat, index: nat)

  /** A line of fstab: where to mount, and the device /dev/sdXn by drive and number. */
  datatype FsEntry = FsEntry(mntpoint: CString, drive: nat, number: nat)

  type Drives = seq<Table>

  const MNT: CString := ['/' as nat, 'm' as nat, 'n' as nat, 't' as nat]
  const SLASH := '/' as nat

  predicate On(ds: Drives, p: Pos) { p.drive < |ds| && p.index < |ds[p.drive]| }

  /** A partition with a mount point; others are not mounted. */
  predicate Mounted(ds: Drives, p: Pos) {
    On(ds, p) && var a := ds[p.drive][p.index]; a.Part? && a.use == Gxfs && a.mntpoint != []
  }

  function MountPoint(ds: Drives, p: Pos): CString
    requires On(ds, p)
  {
    var a := ds[p.drive][p.index];
    if a.Part? then a.mntpoint else []
  }

  /** The directory that a mount point becomes: under /mnt, with a slash at its end. */
  function Directory(mntpoint: CString): (d: CString) {
    var d := MNT + mntpoint;
    if d[|d| - 1] != SLASH then d + [SLASH] else d
  }

  function EntryOf(ds: Drives, p: Pos): FsEntry
    requires On(ds, p)
  {
    FsEntry(Directory(MountPoint(ds, p)), p.drive, Slot(ds[p.drive], p.index))
  }

  /** Position p comes before position q on the screen. */
  predicate Earlier(p: Pos, q: Pos) {
    p.drive < q.drive || (p.drive == q.drive && p.index < q.index)
  }

  /** p is chosen before q: shorter mount point, or as short and earlier. */
  predicate Before(ds: Drives, p: Pos, q: Pos)
    requires On(ds, p) && On(ds, q)
  {
    |MountPoint(ds, p)| < |MountPoint(ds, q)| || (|MountPoint(ds, p)| == |MountPoint(ds, q)| && Earlier(p, q))
  }

  /** best is the first choice among the mounted partitions earlier than limit. */
  ghost predicate IsBest(ds: Drives, best: Pos, limit: Pos) {
    && Mounted(ds, best) && Earlier(best, limit)
    && forall p :: Mounted(ds, p) && Earlier(p, limit) && p != best ==> Before(ds, best, p)
  }

  ghost predicate NoneEarlier(ds: Drives, limit: Pos) {
    forall p :: Mounted(ds, p) ==> !Earlier(p, limit)
  }

  /** ds is start with the mount points of the partitions in done taken away. */
  ghost predicate Cleared(start: Drives, ds: Drives, done: seq<Pos>) {
    && |ds| == |start|
    && (forall d :: 0 <= d < |ds| ==> |ds[d]| == |start[d]|)
    && forall d, k :: 0 <= d < |ds| && 0 <= k < |ds[d]| ==>
         ds[d][k] == if Pos(d, k) in done && start[d][k].Part? then start[d][k].(mntpoint := []) else start[d][k]
  }

  /** The order of the list: every choice before the next, all of them mounted. */
  ghost predicate Ordered(ds: Drives, done: seq<Pos>) {
    && (forall i :: 0 <= i < |done| ==> Mounted(ds, done[i]))
    && (forall i, j :: 0 <= i < j < |done| ==> Before(ds, done[i], done[j]))
  }

  ghost predicate BehindAll(start: Drives, done: seq<Pos>, p: Pos) {
    On(start, p) && forall i :: 0 <= i < |done| ==> On(start, done[i]) && Before(start, done[i], p)
  }

  /** What is still mounted comes after everything chosen so far. */
  ghost predicate RestBehind(start: Drives, ds: Drives, done: seq<Pos>) {
    forall p :: Mounted(ds, p) ==> BehindAll(start, done, p)
  }

  ghost predicate EntriesOf(ds: Drives, done: seq<Pos>) {
    forall i :: 0 <= i < |done| ==> On(ds, done[i])
  }

  /** The fstab lines of these partitions. */
  ghost function Lines(ds: Drives, done: seq<Pos>): (s: seq<FsEntry>)
    requires EntriesOf(ds, done)
    ensures |s| == |done| && forall i :: 0 <= i < |done| ==> s[i] == EntryOf(ds, done[i])
  {
    seq(|done|, i requires 0 <= i < |done| => EntryOf(ds, done[i]))
  }

  ghost function MountedSet(ds: Drives): set<Pos> {
    set d, k | 0 <= d < |ds| && 0 <= k < |ds[d]| && Mounted(ds, Pos(d, k)) :: Pos(d, k)
  }

  lemma NoneYet(ds: Drives)
    ensures NoneEarlier(ds, Pos(0, 0))
  {
  }

  /** After a further area the best is still the best, or that area is. */
  lemma Considered(ds: Drives, found: bool, best: Pos, d: nat, k: nat)
    requires On(ds, Pos(d, k))
    requires if found then IsBest(ds, best, Pos(d, k)) else NoneEarlier(ds, Pos(d, k))
    ensures found ==> Mounted(ds, best)
    ensures var p := Pos(d, k);
      if Mounted(ds, p) && (!found || |MountPoint(ds, p)| < |MountPoint(ds, best)|) then IsBest(ds, p, Pos(d, k + 1))
      else if found then IsBest(ds, best, Pos(d, k + 1))
      else NoneEarlier(ds, Pos(d, k + 1))
  {
    var p := Pos(d, k);
    forall q | Mounted(ds, q) && Earlier(q, Pos(d, k + 1)) ensures q == p || Earlier(q, p) {
      assert q == Pos(q.drive, q.index);
    }
    if found && Mounted(ds, p) && |MountPoint(ds, p)| < |MountPoint(ds, best)| {
      assert Before(ds, p, best);
    }
  }

  /** Behind the last area of a drive comes the first of the next. */
  lemma DriveDone(ds: Drives, found: bool, best: Pos, d: nat)
    requires d < |ds|
    requires if found then IsBest(ds, best, Pos(d, |ds[d]|)) else NoneEarlier(ds, Pos(d, |ds[d]|))
    ensures if found then IsBest(ds, best, Pos(d + 1, 0)) else NoneEarlier(ds, Pos(d + 1, 0))
    ensures found ==> Mounted(ds, best)
  {
    forall q | Mounted(ds, q) && Earlier(q, Pos(d + 1, 0)) ensures Earlier(q, Pos(d, |ds[d]|)) {
      assert On(ds, q);
    }
  }

  class Installer {
    var drives: Drives
    var fstab: seq<FsEntry>

    constructor (ds: Drives)
      ensures drives == ds && fstab == []
    {
      drives := ds;
      fstab := [];
    }

    /** The scan for the shortest mount point, over the partitions of all drives. */
    method FindShortest() returns (found: bool, best: Pos, number: nat)
      ensures found ==> IsBest(drives, best, Pos(|drives|, 0)) && number == Slot(drives[best.drive], best.index)
      ensures !found ==> NoneEarlier(drives, Pos(|drives|, 0))
    {
      hide IsBest, NoneEarlier;
      found, best, number := false, Pos(0, 0), 0;
      var shortest: CString := [];
      NoneYet(drives);
      for d := 0 to |drives|
        invariant found ==> Mounted(drives, best)
        invariant found ==> IsBest(drives, best, Pos(d, 0)) && number == Slot(drives[best.drive], best.index)
        invariant found ==> shortest == MountPoint(drives, best)
        invariant !found ==> NoneEarlier(drives, Pos(d, 0))
      {
        var partIndex := 0;
        for k := 0 to |drives[d]|
          invariant partIndex == Slot(drives[d], k)
          invariant found ==> Mounted(drives, best)
          invariant found ==> IsBest(drives, best, Pos(d, k)) && number == Slot(drives[best.drive], best.index)
          invariant found ==> shortest == MountPoint(drives, best)
          invariant !found ==> NoneEarlier(drives, Pos(d, k))
        {
          Considered(drives, found, best, d, k);
          var part := drives[d][k];
          if part.Part? && part.use == Gxfs {
            if part.mntpoint != [] {
              var thisOne := !found || |part.mntpoint| < |shortest|;
              if thisOne {
                found, best, shortest, number := true, Pos(d, k), part.mntpoint, partIndex;
              }
            }
          }
          if part.Part? {
            partIndex := partIndex + 1;
          }
        }
        DriveDone(drives, found, best, d);
      }
    }

    /**
     The fstab loop.  It ends, and its list has every mounted partition once,
     under the number of its partition table entry, in the order of `Before`.
     */
    method BuildFstab() returns (ghost done: seq<Pos>)
      modifies this
      ensures Ordered(old(drives), done) && (forall p :: p in done <==> Mounted(old(drives), p))
      ensures forall d: nat, k: nat :: Pos(d, k) in done <==>
        && d < |old(drives)| && k < |old(drives)[d]|
        && var a := old(drives)[d][k]; a.Part? && a.use == Gxfs && a.mntpoint != []
      ensures EntriesOf(old(drives), done) && fstab == old(fstab) + Lines(old(drives), done)
      ensures Cleared(old(drives), drives, done)
    {
      hide Cleared, Ordered, MountedSet, IsBest, NoneEarlier, RestBehind, Directory, Slot, Mounted, Before;
      hide EntriesOf, Lines, EntryOf, MountPoint;
      ghost var start, old' := drives, fstab;
      done := [];
      NothingDone(start);
      while true
        invariant Cleared(start, drives, done) && Ordered(start, done)
        invariant RestBehind(start, drives, done)
        invariant EntriesOf(start, done) && fstab == old' + Lines(start, done)
        decreases MountedSet(drives)
      {
        var found, best, number := FindShortest();
        if !found {
          AllDone(start, drives, done);
          MountedAre(start);
          break;
        }
        BestIsMounted(drives, best);
        var part := drives[best.drive][best.index];
        TakeBest(start, drives, done, best);
        drives := drives[best.drive := drives[best.drive][best.index := part.(mntpoint := [])]];
        var dir := MNT + part.mntpoint;
        if dir[|dir| - 1] != SLASH { dir := dir + [SLASH]; }
        fstab := fstab + [FsEntry(dir, best.drive, number)];
        DirectoryIs(part.mntpoint);
        OneMoreLine(start, done, best);
        done := done + [best];
      }
    }

    /** partUnmount: the file systems in the order they are unmounted. */
    method Unmount() returns (order: seq<FsEntry>)
      ensures |order| == |fstab| && forall i :: 0 <= i < |order| ==> order[i] == fstab[|fstab| - 1 - i]
    {
      order := [];
      var idx := |fstab| - 1;
      while idx >= 0
        invariant -1 <= idx < |fstab| && |order| == |fstab| - 1 - idx
        invariant forall i :: 0 <= i < |order| ==> order[i] == fstab[|fstab| - 1 - i]
      {
        order := order + [fstab[idx]];
        idx := idx - 1;
      }
    }
  }

  /** A line of fstab: the mount point under /mnt, with one slash at its end, and the partition's own place. */
  lemma EntryIsExact(ds: Drives, p: Pos)
    requires On(ds, p)
    ensures
      var e, m := EntryOf(ds, p), MountPoint(ds, p);
      var root := ['/' as nat, 'm' as nat, 'n' as nat, 't' as nat];
      && root + m <= e.mntpoint && |e.mntpoint| <= 5 + |m|
      && e.mntpoint[|e.mntpoint| - 1] == '/' as nat
      && (|e.mntpoint| == 5 + |m| <==> m == [] || m[|m| - 1] != '/' as nat)
      && e.drive == p.drive
  {
  }

  lemma DirectoryIs(m: CString)
    ensures Directory(m) == (if (MNT + m)[|MNT + m| - 1] != SLASH then MNT + m + [SLASH] else MNT + m)
  {
  }

  lemma MountedAre(ds: Drives)
    ensures forall d: nat, k: nat :: Mounted(ds, Pos(d, k)) <==>
      && d < |ds| && k < |ds[d]|
      && var a := ds[d][k]; a.Part? && a.use == Gxfs && a.mntpoint != []
  {
  }

  lemma BestIsMounted(ds: Drives, best: Pos)
    requires IsBest(ds, best, Pos(|ds|, 0))
    ensures Mounted(ds, best) && On(ds, best) && ds[best.drive][best.index].Part?
  {
  }

  lemma OneMoreLine(ds: Drives, done: seq<Pos>, p: Pos)
    requires EntriesOf(ds, done) && On(ds, p)
    ensures EntriesOf(ds, done + [p]) && Lines(ds, done + [p]) == Lines(ds, done) + [EntryOf(ds, p)]
  {
    hide EntryOf;
  }

  lemma NothingDone(ds: Drives)
    ensures Cleared(ds, ds, []) && Ordered(ds, []) && RestBehind(ds, ds, [])
    ensures EntriesOf(ds, []) && Lines(ds, []) == []
  {
  }

  /** In a cleared state the mounted partitions are those not done, as they were. */
  lemma ClearedMounted(start: Drives, ds: Drives, done: seq<Pos>, p: Pos)
    requires Cleared(start, ds, done)
    ensures Mounted(ds, p) <==> Mounted(start, p) && p !in done
    ensures On(ds, p) <==> On(start, p)
    ensures Mounted(ds, p) ==> MountPoint(ds, p) == MountPoint(start, p)
    ensures On(ds, p) ==> Slot(ds[p.drive], p.index) == Slot(start[p.drive], p.index)
  {
    assert p == Pos(p.drive, p.index);
    if On(ds, p) { SlotCleared(start, ds, done, p.drive, p.index); }
  }

  lemma {:induction false} SlotCleared(start: Drives, ds: Drives, done: seq<Pos>, d: nat, k: nat)
    requires Cleared(start, ds, done) && d < |ds| && k <= |ds[d]|
    ensures Slot(ds[d], k) == Slot(start[d], k)
  {
    if k > 0 {
      SlotCleared(start, ds, done, d, k - 1);
      assert ds[d][k - 1].Part? <==> start[d][k - 1].Part?;
    }
  }

  lemma AllDone(start: Drives, ds: Drives, done: seq<Pos>)
    requires Cleared(start, ds, done) && Ordered(start, done) && NoneEarlier(ds, Pos(|ds|, 0))
    ensures forall p :: p in done <==> Mounted(start, p)
  {
    forall p ensures p in done <==> Mounted(start, p) {
      ClearedMounted(start, ds, done, p);
      assert On(ds, p) ==> Earlier(p, Pos(|ds|, 0));
    }
  }

  /** One turn of the loop keeps the list ordered and the rest behind it. */
  lemma TakeBest(start: Drives, ds: Drives, done: seq<Pos>, best: Pos)
    requires Cleared(start, ds, done) && Ordered(start, done) && IsBest(ds, best, Pos(|ds|, 0))
    requires RestBehind(start, ds, done)
    ensures On(start, best) && ds[best.drive][best.index].Part?
    ensures var after := ds[best.drive := ds[best.drive][best.index := ds[best.drive][best.index].(mntpoint := [])]];
            && Cleared(start, after, done + [best]) && Ordered(start, done + [best])
            && RestBehind(start, after, done + [best])
            && MountedSet(after) < MountedSet(ds)
    ensures EntryOf(start, best) ==
      FsEntry(Directory(ds[best.drive][best.index].mntpoint), best.drive, Slot(ds[best.drive], best.index))
  {
    ClearedMounted(start, ds, done, best);
    var after := ds[best.drive := ds[best.drive][best.index := ds[best.drive][best.index].(mntpoint := [])]];
    ClearOne(start, ds, done, best);
    OrderOne(start, ds, done, best);
    forall p | Mounted(after, p) ensures BehindAll(start, done + [best], p) {
      ClearedMounted(start, after, done + [best], p);
      ClearedMounted(start, ds, done, p);
      assert Earlier(p, Pos(|ds|, 0)) && Before(ds, best, p);
      assert BehindAll(start, done, p);
    }
    assert best in MountedSet(ds) && best !in MountedSet(after);
    forall p | p in MountedSet(after) ensures p in MountedSet(ds) {
      ClearedMounted(start, after, done + [best], p);
      ClearedMounted(start, ds, done, p);
    }
  }

  lemma ClearOne(start: Drives, ds: Drives, done: seq<Pos>, best: Pos)
    requires Cleared(start, ds, done) && Mounted(ds, best)
    ensures var after := ds[best.drive := ds[best.drive][best.index := ds[best.drive][best.index].(mntpoint := [])]];
      Cleared(start, after, done + [best])
  {
  }

  lemma OrderOne(start: Drives, ds: Drives, done: seq<Pos>, best: Pos)
    requires Ordered(start, done) && Mounted(ds, best) && Mounted(start, best)
    requires RestBehind(start, ds, done)
    ensures Ordered(start, done + [best])
  {
    var t := done + [best];
    assert BehindAll(start, done, best);
    assert forall i :: 0 <= i < |done| ==> t[i] == done[i];
    forall i, j | 0 <= i < j < |t| ensures On(start, t[i]) && On(start, t[j]) && Before(start, t[i], t[j]) {
      assert Mounted(start, done[i]);
      if j < |done| { assert Mounted(start, done[j]); }
    }
  }

  // ----- what the order is good for

  /** a is a proper prefix of b; of directories, which end in a slash: a is above b. */
  ghost predicate Above(a: CString, b: CString) { a < b }

  /** A mount point that becomes a directory above another's is the shorter string. */
  lemma AboveIsShorter(a: CString, b: CString)
    requires Above(Directory(a), Directory(b)) && a != []
    ensures |a| < |b|
  {
    assert |MNT| == 4;
    assert a == (MNT + a)[4..] && b == (MNT + b)[4..];
  }

  /**
   In the order of the list a mount point comes before those it is a prefix of, and
   a directory before those below it.
   */
  lemma ParentsFirst(ds: Drives, done: seq<Pos>, i: nat, j: nat)
    requires Ordered(ds, done) && i < |done| && j < |done|
    ensures Mounted(ds, done[i]) && Mounted(ds, done[j])
    ensures Above(MountPoint(ds, done[i]), MountPoint(ds, done[j])) ==> i < j
    ensures Above(EntryOf(ds, done[i]).mntpoint, EntryOf(ds, done[j]).mntpoint) ==> i < j
  {
    hide Directory;
    assert Mounted(ds, done[i]) && Mounted(ds, done[j]);
    if j < i { assert Before(ds, done[j], done[i]); }
    if Above(EntryOf(ds, done[i]).mntpoint, EntryOf(ds, done[j]).mntpoint) {
      AboveIsShorter(MountPoint(ds, done[i]), MountPoint(ds, done[j]));
    }
  }

  /** No partition is listed twice. */
  lemma ListedOnce(ds: Drives, done: seq<Pos>, i: nat, j: nat)
    requires Ordered(ds, done) && i < j < |done|
    ensures done[i] != done[j]
  {
    assert Before(ds, done[i], done[j]);
  }

  /** The device of a line is the entry of its partition in the table that partFlush has written for the drive. */
  lemma DeviceIsEntry(ds: Drives, done: seq<Pos>, i: nat)
    requires Ordered(ds, done) && i < |done| && forall d :: 0 <= d < |ds| ==> Writable(ds[d])
    ensures Mounted(ds, done[i]) && Writable(ds[done[i].drive])
    ensures var l, t := EntryOf(ds, done[i]), ds[done[i].drive];
            && l.drive == done[i].drive && l.number < |Flush(t, 1)|
            && Flush(t, 1)[l.number] == WriteEntry(t[done[i].index], 1 + Total(t[..done[i].index]))
  {
    assert Mounted(ds, done[i]);
    FlushSlot(ds[done[i].drive], 1, done[i].index);
  }

  predicate AreaOk(ds: Drives, p: Pos)
    requires On(ds, p)
  {
    var a := ds[p.drive][p.index];
    a.Part? ==>
      && (a.mntpoint != [] ==> forall d, k :: 0 <= d < |ds| && 0 <= k < |ds[d]| && Pos(d, k) != p ==>
            MountPoint(ds, Pos(d, k)) != a.mntpoint)
      && (a.use == Unused ==> a.mntpoint == [])
      && (a.format ==> a.use == Gxfs && a.size >= 32)
      && (a.mntpoint == ROOT ==> a.use == Gxfs && a.size >= 1024)
  }

  /** isTableOK. */
  predicate TableOk(ds: Drives) {
    && (exists d, k :: 0 <= d < |ds| && 0 <= k < |ds[d]| && MountPoint(ds, Pos(d, k)) == ROOT)
    && forall d, k :: 0 <= d < |ds| && 0 <= k < |ds[d]| ==> AreaOk(ds, Pos(d, k))
  }

  /**
   The root comes first, in any table the editor accepts, exactly when no other
   mount point one character long stands on an earlier partition.
   */
  lemma RootFirst(ds: Drives, done: seq<Pos>, root: Pos)
    requires TableOk(ds) && Ordered(ds, done) && forall p :: p in done <==> Mounted(ds, p)
    requires On(ds, root) && MountPoint(ds, root) == ROOT
    ensures done != []
    ensures done[0] == root <==> forall p :: Mounted(ds, p) && |MountPoint(ds, p)| == 1 ==> !Earlier(p, root)
  {
    assert AreaOk(ds, Pos(root.drive, root.index));
    assert Mounted(ds, root);
    var r :| 0 <= r < |done| && done[r] == root;
    assert Mounted(ds, done[0]);
    if r == 0 {
      forall p | Mounted(ds, p) && |MountPoint(ds, p)| == 1 ensures !Earlier(p, root) {
        var i :| 0 <= i < |done| && done[i] == p;
        if i > 0 { assert Before(ds, done[0], done[i]); }
      }
    } else {
      assert Before(ds, done[0], done[r]);
    }
  }

  /** In particular when every mount point is an absolute path. */
  lemma RootFirstOfPaths(ds: Drives, done: seq<Pos>, root: Pos)
    requires TableOk(ds) && Ordered(ds, done) && forall p :: p in done <==> Mounted(ds, p)
    requires On(ds, root) && MountPoint(ds, root) == ROOT
    requires forall p :: Mounted(ds, p) ==> MountPoint(ds, p)[0] == SLASH
    ensures done != [] && done[0] == root
  {
    RootFirst(ds, done, root);
    forall p | Mounted(ds, p) && |MountPoint(ds, p)| == 1 ensures !Earlier(p, root) {
      assert MountPoint(ds, p) == ROOT;
      assert AreaOk(ds, Pos(root.drive, root.index));
      assert p == Pos(p.drive, p.index) && root == Pos(root.drive, root.index);
    }
  }

  /** A table the editor accepts whose root is not mounted first: "x" before "/". */
  lemma RootNotAlwaysFirst() returns (ds: Drives, done: seq<Pos>)
    ensures TableOk(ds) && Ordered(ds, done) && (forall p :: p in done <==> Mounted(ds, p))
    ensures |done| == 2 && MountPoint(ds, done[1]) == ROOT
  {
    var x := Part(64, Gxfs, ['x' as nat], false, [], NEW_TYPE);
    var r := Part(1024, Gxfs, ROOT, false, [], NEW_TYPE);
    ds := [[x, r]];
    done := [Pos(0, 0), Pos(0, 1)];
    assert MountPoint(ds, Pos(0, 1)) == ROOT && MountPoint(ds, Pos(0, 0)) == ['x' as nat];
    assert ROOT[0] != 'x' as nat;
    forall p ensures p in done <==> Mounted(ds, p) {
      if On(ds, p) { assert p == Pos(0, p.index); }
    }
  }
}
