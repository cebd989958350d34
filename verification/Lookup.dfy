/**
  What a successful scan says about the entry it found, and why an operation may start from there.
*/
module Lookup {
  import opened Bytes
  import opened Status
  import opened Layout
  import opened Records
  import opened FatChain
  import opened BlockDevice
  import opened CrashSafety
  import opened CommitSteps
  import opened Quiescence
  import Directory
  import DirectoryChange

  /** An entry together with the cluster that it was found in. */
  datatype Found = Found(cluster: nat, entry: Directory.Entry)

  /** How a client names a file: by directory and name, or by the place of its primary record. */
  datatype Locator = ByName(directory: nat, name: Name) | ByObject(cluster: nat, primarySlot: nat)

  /** What a search of a whole directory looks for. */
  datatype Query = WholeName(name: Name) | BaseName(name: Name, ignored: Option<Found>)

  predicate Hit(q: Query, f: Found) {
    && f.entry.kind != Directory.Internal
    && match q
       case WholeName(name) => f.entry.primary.name == name
       case BaseName(name, ignored) =>
         && f.entry.primary.name[..8] == name[..8]
         && (ignored == None
             || ignored.value.cluster != f.cluster || ignored.value.entry.primarySlot != f.entry.primarySlot)
  }

  ghost predicate Scans(v: Volume, disk: Disk, c: nat)
    requires v.Holds(disk)
  {
    c in v.dirs && Directory.Scan(DirSlots(v, disk, c)).Success?
  }

  /** A scan of its cluster reports this entry. */
  ghost predicate Shown(v: Volume, disk: Disk, f: Found)
    requires v.Holds(disk)
  {
    Scans(v, disk, f.cluster) && f.entry in Directory.Scan(DirSlots(v, disk, f.cluster)).value
  }

  /** A scan of the cluster reports no entry that the query asks for. */
  ghost predicate Misses(v: Volume, disk: Disk, c: nat, q: Query)
    requires v.Holds(disk)
  {
    Scans(v, disk, c) && forall e :: e in Directory.Scan(DirSlots(v, disk, c)).value ==> !Hit(q, Found(c, e))
  }

  lemma EntriesDecide(v: Volume, disk: Disk, c: nat, q: Query, entries: seq<Directory.Entry>)
    requires v.Holds(disk) && c in v.dirs && Directory.Scan(DirSlots(v, disk, c)) == Success(entries)
    ensures forall i :: 0 <= i < |entries| ==> Shown(v, disk, Found(c, entries[i]))
    ensures (forall i :: 0 <= i < |entries| ==> !Hit(q, Found(c, entries[i]))) ==> Misses(v, disk, c, q)
  {}

  /** The cluster belongs to the directory that starts at `directory`. */
  ghost predicate Within(v: Volume, fat: seq<u32>, directory: nat, c: nat) {
    && v.g.Valid() && |fat| == v.g.fatSectors * ENTRIES_PER_SECTOR && ClusterInRange(v.g, directory)
    && exists cs :: IsChain(fat, v.g.Entries(), directory, cs) && c in cs
  }

  lemma InChainIsWithin(v: Volume, fat: seq<u32>, directory: u32, clusters: seq<u32>, k: nat)
    requires v.g.Valid() && |fat| == v.g.fatSectors * ENTRIES_PER_SECTOR
    requires IsChain(fat, v.g.Entries(), directory, clusters) && k < |clusters|
    ensures Within(v, fat, directory, clusters[k])
  {}

  /** The entry is one that the locator names. */
  ghost predicate Answers(v: Volume, fat: seq<u32>, where: Locator, f: Found) {
    match where
    case ByName(directory, name) => f.entry.primary.name == name && Within(v, fat, directory, f.cluster)
    case ByObject(cluster, slot) =>
      f.cluster == cluster && f.entry.primarySlot == slot && f.entry.kind == Directory.Regular
  }

  /** The slot pair and the file in it are what the locator names. */
  ghost predicate Targets(v: Volume, fat: seq<u32>, where: Locator, at: Slot, file: View) {
    && file.File?
    && match where
       case ByName(directory, name) => file.name == name && Within(v, fat, directory, at.cluster)
       case ByObject(cluster, slot) => at.cluster == cluster && at.index + 1 == slot
  }

  function PairSlot(f: Found): Slot {
    Slot(f.cluster, if f.entry.companionSlot.Some? then f.entry.companionSlot.value else 0)
  }

  /** The pair at `at` is one that a scan passes. */
  ghost predicate OnTheWay(v: Volume, disk: Disk, at: Slot)
    requires v.Holds(disk) && v.IsPair(at)
  {
    Scans(v, disk, at.cluster) && Directory.Visits(Directory.Cells(DirSlots(v, disk, at.cluster)), 0, at.index)
  }

  lemma {:induction false} ChainInDirs(v: Volume, fat: seq<u32>, start: u32, path: seq<u32>, k: nat)
    requires v.g.Valid() && |fat| == v.g.fatSectors * ENTRIES_PER_SECTOR && DirsClosed(v, fat)
    requires IsPath(fat, v.g.Entries(), start, path) && start in v.dirs && k < |path|
    ensures path[k] in v.dirs
  {
    if k > 0 {
      ChainInDirs(v, fat, start, path, k - 1);
      assert Steps(fat, v.g.Entries(), path[k - 1], path[k]);
      assert LeadsInto(fat, v.g.Entries(), path[k - 1], v.dirs);
    }
  }

  /** A file's entry stands for the pair of records right where the scan met it. */
  lemma FoundPair(v: Volume, disk: Disk, f: Found)
    requires v.Holds(disk) && Shown(v, disk, f) && f.entry.kind == Directory.Regular
    ensures f.entry.companionSlot.Some? && f.entry.primarySlot == PairSlot(f).index + 1
    ensures var at := PairSlot(f); v.IsPair(at) && OnTheWay(v, disk, at) && PairAt(v, disk, at) == Some(f.entry.primary)
  {
    hide Pair, FilePrimary, DirSlots, Directory.CellAt, Directory.Visits;
    var slots := DirSlots(v, disk, f.cluster);
    var cells, entries := Directory.Cells(slots), Directory.Scan(slots).value;
    var n :| 0 <= n < |entries| && entries[n] == f.entry;
    var k := Directory.EntryIsVisited(cells, 0, [], n);
    assert cells[k] == Directory.CellAt(slots, k);
    FileCell(slots, k);
    assert Second(Slot(f.cluster, k)) == Slot(f.cluster, k + 1);
  }

  /** A file's cell comes from two records that are a pair. */
  lemma FileCell(slots: seq<Record>, k: nat)
    requires k < |slots| && Directory.CellAt(slots, k).Item?
             && Directory.CellAt(slots, k).entry.kind == Directory.Regular
    ensures var e := Directory.CellAt(slots, k).entry;
      && k + 1 < |slots| && e.companionSlot == Some(k) && e.primarySlot == k + 1
      && Pair(slots[k], slots[k + 1]) == Some(e.primary)
  {}

  /** Nothing that a scan passes is a never-used slot. */
  lemma {:induction false} VisitedIsUsed(cells: seq<Directory.Cell>, i: nat, k: nat)
    requires Directory.Sound(cells) && Directory.Visits(cells, i, k) && k <= |cells|
    ensures forall j :: i <= j < k ==> !cells[j].End?
    decreases |cells| - i
  {
    if i < k {
      match cells[i] {
        case Hole => VisitedIsUsed(cells, i + 1, k);
        case Item(e) =>
          Directory.VisitsForward(cells, Directory.After(i, e), k);
          VisitedIsUsed(cells, Directory.After(i, e), k);
      }
    }
  }

  /** Where a scan succeeds nothing is pending: device and clients see the same records. */
  lemma ScannedIsSettled(v: Volume, durable: Disk, logical: Disk, fat: seq<u32>, claims: Claims, c: nat)
    requires Quiescent(v, durable, logical, fat, claims) && Scans(v, logical, c)
    ensures DirSlots(v, durable, c) == DirSlots(v, logical, c)
    ensures forall i :: 0 <= i < SLOTS ==> RecordAt(durable, v.g, Slot(c, i)) == RecordAt(logical, v.g, Slot(c, i))
  {
    assert DirSettled(v, durable, logical, c);
    var slots := DirSlots(v, durable, c);
    forall i | 0 <= i < SLOTS ensures RecordAt(durable, v.g, Slot(c, i)) == RecordAt(logical, v.g, Slot(c, i)) {
      assert slots[i] == DirSlots(v, logical, c)[i];
    }
  }

  /** The target holds a file or is free. */
  ghost predicate WholeOrFree(v: Volume, disk: Disk, at: Slot)
    requires v.Holds(disk) && v.IsPair(at)
  {
    || PairAt(v, disk, at).Some?
    || (Directory.Unused(RecordAt(disk, v.g, at)) && Directory.Unused(RecordAt(disk, v.g, Second(at))))
  }

  lemma TargetHasNoNeighbours(op: Op)
    requires op.Valid() && WholeOrFree(op.v, op.start, op.target)
    ensures NeighboursFree(op)
  {
    hide Pair, RecordAt, Backs;
    var first, second := RecordAt(op.start, op.v.g, op.target), RecordAt(op.start, op.v.g, Second(op.target));
    PairStarts(first, second);
    PairEnds(first, second);
    forall at | op.v.IsPair(at) && (Second(at) == op.target || at == Second(op.target))
      ensures FileAt(op.v, op.start, at) == NoFile
    {
      if at == Second(op.target) {
        DeadFirst(second);
      } else {
        DeadSecond(first);
      }
    }
  }

  lemma UsedBefore(v: Volume, disk: Disk, at: Slot)
    requires v.Holds(disk) && v.IsPair(at) && OnTheWay(v, disk, at)
    ensures forall b :: v.IsSlot(b) && b.cluster == at.cluster && b.index < at.index ==> !NeverUsed(v, disk, b)
  {
    var slots := DirSlots(v, disk, at.cluster);
    var cells := Directory.Cells(slots);
    Directory.CellsAreSound(slots);
    VisitedIsUsed(cells, 0, at.index);
    forall b | v.IsSlot(b) && b.cluster == at.cluster && b.index < at.index ensures !NeverUsed(v, disk, b) {
      assert cells[b.index] == Directory.CellAt(slots, b.index) && b == Slot(at.cluster, b.index);
    }
  }

  /** At the start memory and volume agree on everything that is in use. */
  lemma EntriesAtStart(op: Op, logical: Disk, fat: seq<u32>, claims: Claims)
    requires op.Valid() && Guarded(op.v, op.start, logical, fat, claims)
    ensures EntriesKept(op, fat, claims)
  {
    forall c | c in op.v.dirs ensures c < |fat| && fat[c] == FatEntry(op.start, op.v.g, c) {
      assert Stable(op.v, op.start, logical, fat, c);
    }
    forall b, c | b in claims && c in claims[b] && c < |fat| ensures fat[c] == FatEntry(op.start, op.v.g, c) {
      assert Claimed(claims, c) && Stable(op.v, op.start, logical, fat, c);
    }
  }

  /** A lookup between operations is a sound start for an operation on what it found. */
  lemma OperationBegins(op: Op, logical: Disk, fat: seq<u32>, claims: Claims)
    requires op.Valid() && Quiescent(op.v, op.start, logical, fat, claims)
    requires OnTheWay(op.v, logical, op.target) && WholeOrFree(op.v, logical, op.target)
    ensures Live(op, op.start, logical, fat, claims)
    ensures PairAt(op.v, op.start, op.target) == PairAt(op.v, logical, op.target)
  {
    hide Directory.Scan, DirSlots, Ready, DirKept, EntriesKept, Progress, PairAt, WholeOrFree, Directory.Visits;
    ScannedIsSettled(op.v, op.start, logical, fat, claims, op.target.cluster);
    SettledIsKept(op, logical);
    TargetIsReady(op);
    OpStarts(op, logical, fat, claims);
    EntriesAtStart(op, logical, fat, claims);
  }

  /** Where device and clients see the same records, so does the operation's own cluster at its start. */
  lemma SettledIsKept(op: Op, logical: Disk)
    requires op.Valid() && op.v.Holds(logical)
    requires forall i :: 0 <= i < SLOTS ==>
             RecordAt(op.start, op.v.g, Slot(op.target.cluster, i)) ==
                 RecordAt(logical, op.v.g, Slot(op.target.cluster, i))
    ensures DirKept(op, op.start, logical)
    ensures PairAt(op.v, op.start, op.target) == PairAt(op.v, logical, op.target)
    ensures WholeOrFree(op.v, logical, op.target) ==> WholeOrFree(op.v, op.start, op.target)
  {
    var c := op.target.cluster;
    assert op.target == Slot(c, op.target.index) && Second(op.target) == Slot(c, op.target.index + 1);
    forall b | op.v.IsSlot(b) && b.cluster == c ensures RecordAt(op.start, op.v.g, b) == RecordAt(logical, op.v.g, b) {
      assert b == Slot(c, b.index);
    }
  }

  lemma TargetIsReady(op: Op)
    requires op.Valid() && OnTheWay(op.v, op.start, op.target) && WholeOrFree(op.v, op.start, op.target)
    ensures Ready(op)
  {
    hide Directory.Scan, Directory.Cells, Directory.Visits, DirSlots, WholeOrFree, NeverUsed, NeighboursFree;
    TargetHasNoNeighbours(op);
    UsedBefore(op.v, op.start, op.target);
  }

  /** The pair that the first-fit search picks in a cluster that scans. */
  lemma FreePairFound(v: Volume, durable: Disk, logical: Disk, fat: seq<u32>, claims: Claims, at: Slot)
    requires Guarded(v, durable, logical, fat, claims) && v.IsPair(at) && Scans(v, logical, at.cluster)
    requires var slots := DirSlots(v, logical, at.cluster);
      Directory.PairFree(slots, at.index) && forall k :: 0 <= k < at.index ==> !Directory.PairFree(slots, k)
    ensures OnTheWay(v, logical, at) && WholeOrFree(v, logical, at)
    ensures Directory.Unused(RecordAt(logical, v.g, Second(at)))
  {
    var c := at.cluster;
    var slots := DirSlots(v, logical, c);
    forall i, j | 0 <= i < j < |slots| && slots[i][0] == 0 ensures slots[j][0] == 0 {
      assert v.IsSlot(Slot(c, i)) && v.IsSlot(Slot(c, j));
      assert NeverUsed(v, logical, Slot(c, i));
      assert NeverUsed(v, logical, Slot(c, j));
    }
    DirectoryChange.FirstFreeIsReached(slots, at.index);
    assert at == Slot(c, at.index) && Second(at) == Slot(c, at.index + 1);
    assert slots[at.index] == RecordAt(logical, v.g, at) && slots[at.index + 1] == RecordAt(logical, v.g, Second(at));
  }

  /** The cluster is the first of the directory that has a free slot pair. */
  ghost predicate FirstWithRoom(v: Volume, disk: Disk, cs: seq<u32>, c: nat)
    requires v.Holds(disk)
  {
    exists k :: 0 <= k < |cs| && cs[k] == c && forall j :: 0 <= j < k ==> Packed(v, disk, cs[j])
  }

  /** No two neighbouring slots of the cluster are free. */
  ghost predicate Packed(v: Volume, disk: Disk, c: nat)
    requires v.Holds(disk)
  {
    c in v.dirs && forall i :: 0 <= i && i + 1 < SLOTS ==> !Directory.PairFree(DirSlots(v, disk, c), i)
  }

  lemma FirstFound(v: Volume, disk: Disk, fat: seq<u32>, directory: u32, clusters: seq<u32>, k: nat)
    requires v.Holds(disk) && v.g.Entries() <= |fat| && IsChain(fat, v.g.Entries(), directory, clusters)
    requires k < |clusters| && forall j :: 0 <= j < k ==> Packed(v, disk, clusters[j])
    ensures forall cs :: IsChain(fat, v.g.Entries(), directory, cs) ==> FirstWithRoom(v, disk, cs, clusters[k])
  {
    hide IsChain, Packed;
    forall cs | IsChain(fat, v.g.Entries(), directory, cs) ensures FirstWithRoom(v, disk, cs, clusters[k]) {
      ChainUnique(fat, v.g.Entries(), directory, clusters, cs);
    }
  }

  lemma FreePairInDirectory(v: Volume, durable: Disk, logical: Disk, fat: seq<u32>, claims: Claims, directory: u32,
                            clusters: seq<u32>, q: Query, at: Slot)
    requires Guarded(v, durable, logical, fat, claims) && v.IsPair(at) && v.Holds(logical)
    requires IsChain(fat, v.g.Entries(), directory, clusters)
    requires forall i :: 0 <= i < |clusters| ==> Misses(v, logical, clusters[i], q)
    requires forall cs :: IsChain(fat, v.g.Entries(), directory, cs) ==> FirstWithRoom(v, logical, cs, at.cluster)
    requires var slots := DirSlots(v, logical, at.cluster);
      Directory.PairFree(slots, at.index) && forall k :: 0 <= k < at.index ==> !Directory.PairFree(slots, k)
    ensures OnTheWay(v, logical, at) && WholeOrFree(v, logical, at) && at.cluster in clusters
    ensures Directory.Unused(RecordAt(logical, v.g, Second(at))) && PairAt(v, logical, at) == None
  {
    hide Directory.PairFree, Guarded;
    assert FirstWithRoom(v, logical, clusters, at.cluster);
    var i :| 0 <= i < |clusters| && clusters[i] == at.cluster;
    assert Misses(v, logical, clusters[i], q);
    FreePairFound(v, durable, logical, fat, claims, at);
    DeadSecond(RecordAt(logical, v.g, Second(at)));
  }

  /** What was just found reads the same from the device. */
  lemma FoundIsSettled(op: Op, logical: Disk, fat: seq<u32>, claims: Claims)
    requires op.Valid() && Quiescent(op.v, op.start, logical, fat, claims) && OnTheWay(op.v, logical, op.target)
    ensures PairAt(op.v, op.start, op.target) == PairAt(op.v, logical, op.target)
  {
    var c := op.target.cluster;
    ScannedIsSettled(op.v, op.start, logical, fat, claims, c);
    assert op.target == Slot(c, op.target.index) && Second(op.target) == Slot(c, op.target.index + 1);
  }
}
