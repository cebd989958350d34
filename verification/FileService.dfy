/**
  The file service: create, save, rename and delete over table, directory and data sectors, with the
  write ordering that makes every power cut show the old file, the new file or no file at all.
*/
module FileService {
  import opened Bytes
  import opened Status
  import opened Layout
  import opened Records
  import opened FatChain
  import opened BlockDevice
  import opened BlockCache
  import opened Sync
  import opened CrashSafety
  import opened CommitSteps
  import opened Quiescence
  import opened ServiceSteps
  import opened Lookup
  import opened ContentSteps
  import opened DirectoryState
  import opened CutDirectory
  import opened Runs
  import opened Refusals
  import opened Leaks
  import FatTable
  import Directory
  import DirectoryChange

  const MAX_DIRTY := 2 * MAX_CLUSTERS + 2

  lemma StandingStill(op: Op)
    requires op.Valid() && Sound(op.v, op.start)
    ensures Atomic(op, op.start)
  {}

  /** Whatever a power cut during a barrier can leave is an atomic image. */
  lemma CutsAreAtomic(op: Op, durable: Disk, logical: Disk, fat: seq<u32>, claims: Claims, maybe: seq<set<Sector>>,
                      exposed: iset<Disk>, maybe': seq<set<Sector>>, exposed': iset<Disk>)
    requires op.Valid() && Live(op, durable, logical, fat, claims)
    requires |durable| == |maybe| && forall s :: 0 <= s < |maybe| ==> maybe[s] == {durable[s]}
    requires Contained(maybe, exposed, maybe', exposed', logical)
    requires forall d :: d in exposed ==> Atomic(op, d)
    ensures forall d :: d in exposed' ==> Atomic(op, d)
  {
    hide Live, Atomic;
    forall d | d in exposed' ensures Atomic(op, d) {
      if d !in exposed {
        assert Between(maybe, logical, d);
        assert Torn(durable, logical, d);
        LiveCut(op, durable, logical, fat, claims, d);
      }
    }
  }

  /** The entries that belong to no file, and the root's first, are end marks. */
  predicate ReservedEnd(fat: seq<u32>) {
    |fat| >= 3 && forall i :: 0 <= i < 3 ==> fat[i] >= EOC_FIRST
  }

  class Service {
    const g: Geometry
    ghost const v: Volume
    const sync: SyncLayer
    const writable: bool
    const fat: array<u32>
    const chain: array<u32>
    const oldChain: array<u32>
    var dirty: seq<nat>
    var initialized: bool
    ghost var claims: Claims

    ghost function Durable(): Disk
      reads sync.cache.device
    {
      sync.cache.device.data
    }

    ghost function Logical(): Disk
      reads sync.cache
    {
      sync.cache.logical
    }

    ghost predicate Wired()
      reads this, sync, sync.cache, sync.cache.device
    {
      && sync.Valid() && v.g == g && sync.cache.device.sectorCount == g.totalSectors
      && v.Holds(Logical()) && v.Holds(Durable()) && 2 in v.dirs
      && fat.Length == g.fatSectors * ENTRIES_PER_SECTOR
      && chain.Length == MAX_CLUSTERS && oldChain.Length == MAX_CLUSTERS
      && fat != chain && fat != oldChain && chain != oldChain
      && |dirty| <= MAX_DIRTY && forall s :: s in dirty ==> s < g.fatSectors
    }

    /** Between operations. */
    ghost predicate Idle()
      reads this, sync, sync.cache, sync.cache.device, fat
    {
      && Wired()
      && (initialized ==>
            sync.cache.device.Quiet() && Quiescent(v, Durable(), Logical(), fat[..], claims))
    }

    /** Memory's table is the volume's but for the sectors that are marked. */
    ghost predicate Tracked()
      reads this, sync, sync.cache, sync.cache.device, fat
      requires Wired()
    {
      Marked(v, Logical(), fat[..], dirty)
    }

    /** Nothing is pending: the device, the clients and memory's table all say the same. */
    ghost predicate Settled()
      reads this, sync, sync.cache, sync.cache.device, fat
      requires Wired()
    {
      Durable() == Logical() && dirty == [] && fat[..] == Table(Durable(), g)
    }

    /** Every image that a power cut since the start could have left shows `op` undone, done or blank. */
    ghost predicate Traced(op: Op)
      reads sync.cache.device
    {
      op.start in sync.cache.device.exposed && forall d :: d in sync.cache.device.exposed ==> Atomic(op, d)
    }

    /** No image but the one at the start, and clients see what they saw. */
    ghost predicate Unwritten(op: Op, logical: Disk)
      reads sync.cache, sync.cache.device
    {
      sync.cache.device.exposed == iset{op.start} && Logical() == logical
    }

    /**
      What came of a request that was looked at.  It was this operation that was asked for, or nothing was
      written; it got the one right answer unless the storage below failed; an answer other than OK came
      before any write, except that a file too long to be listed is deleted without its clusters.
    */
    twostate predicate Answered(r: Request, status: Status, op: Op)
      reads this, sync, sync.cache, sync.cache.device, sync.cache.device.log, fat
    {
      && old(Wired()) && Idle() && Traced(op) && op.Valid() && op.v == v && op.start == old(Durable())
      && (Serves(r, op) || Unwritten(op, old(Logical())))
      && (sync.Blamed(status) || (initialized && status == Answer(v, old(fat[..]), old(Logical()), r)))
      && (status == Ok ==>
            && FileAt(v, Durable(), op.target) == op.next && Serves(r, op) && Listed(r, op, old(Logical()), Logical())
            && (r.Renaming? || Durable() == Logical()))
      && (status != Ok && !status.FromBelow() ==>
            Unwritten(op, old(Logical())) || (r.Removing? && (old(Settled()) ==> Overlong(op))))
      && (old(Settled()) && !status.FromBelow() ==> Settled())
      && (old(Settled()) && status == Ok ==> Leaves(op, Durable()))
    }

    /** The service is not up, or may not write: nothing at all has changed. */
    twostate predicate Declined(status: Status)
      reads this, sync, sync.cache, sync.cache.device, sync.cache.device.log, fat
    {
      && status == (if old(initialized) then ReadOnly else InvalidState)
      && initialized == old(initialized) && dirty == old(dirty) && fat[..] == old(fat[..])
      && Durable() == old(Durable()) && Logical() == old(Logical())
      && sync.cache.device.exposed == old(sync.cache.device.exposed)
      && sync.cache.device.past == old(sync.cache.device.past)
      && sync.cache.device.log.faults == old(sync.cache.device.log.faults)
    }

    ghost predicate InOp(op: Op)
      reads this, sync, sync.cache, sync.cache.device, fat
    {
      && Wired() && op.v == v && op.Valid() && Traced(op)
      && (initialized ==>
            sync.cache.device.Quiet() && Live(op, Durable(), Logical(), fat[..], claims))
    }

    /** Mounting: any sound image, in particular any that a power cut left behind, can be taken over. */
    constructor (g: Geometry, ghost v: Volume, sync: SyncLayer, writable: bool)
      requires sync.Valid() && sync.cache.AllSaved() && sync.cache.device.Quiet()
      requires v.g == g && 2 in v.dirs && Sound(v, sync.cache.device.data)
      modifies sync.cache`entries, sync.cache`useClock, sync.cache.device.log
      ensures Idle() && this.v == v && this.sync == sync && this.g == g && this.writable == writable
      ensures fresh(fat) && fresh(chain) && fresh(oldChain)
      ensures initialized ==> Settled() && ReservedEnd(Table(Durable(), g))
      ensures initialized || !ReservedEnd(Table(Durable(), g)) || sync.Blamed(Io) || sync.Blamed(WouldBlock)
      ensures sync.cache.Full() == old(sync.cache.Full())
    {
      hide Quiescent, Guarded, FatEntry, Table, Represents, Held;
      this.g, this.v, this.sync, this.writable := g, v, sync, writable;
      fat := new u32[g.fatSectors * ENTRIES_PER_SECTOR](_ => 0);
      chain, oldChain := new u32[MAX_CLUSTERS](_ => 0), new u32[MAX_CLUSTERS](_ => 0);
      dirty, initialized, claims := [], false, map[];
      new;
      QuietMeansSettled(sync.cache);
      Start();
    }

    /** Loads the table and goes into service if its first three entries are what they must be. */
    method Start()
      requires Wired() && !initialized && dirty == []
      requires Durable() == Logical() && sync.cache.device.Quiet() && Sound(v, Durable())
      modifies this`dirty, this`initialized, this`claims, fat, sync.cache`entries, sync.cache`useClock
      modifies sync.cache.device.log
      ensures Idle() && (initialized ==> Settled())
      ensures initialized ==> ReservedEnd(Table(Durable(), g))
      ensures initialized || !ReservedEnd(Table(Durable(), g)) || sync.Blamed(Io) || sync.Blamed(WouldBlock)
      ensures sync.cache.Full() == old(sync.cache.Full())
    {
      hide Quiescent, Sound, FatEntry, Table, SyncLayer.Blamed, Represents, Held;
      sync.cache.device.log.StartOver();
      var status := LoadFat();
      if status.Failed() || fat[0] < EOC_FIRST || fat[1] < EOC_FIRST || fat[2] < EOC_FIRST {
        return;
      }
      claims := TakeOver(v, Durable());
      initialized := true;
    }

    /** Replaces memory's table by the volume's, sector by sector; a read error leaves it half done. */
    method LoadFat() returns (status: Status)
      requires Wired()
      modifies this`dirty, fat, sync.cache`entries, sync.cache`useClock, sync.cache.device.log
      ensures Wired()
      ensures forall c :: 0 <= c < fat.Length ==> fat[c] == old(fat[c]) || fat[c] == FatEntry(Logical(), g, c)
      ensures status == Ok ==> dirty == [] && fat[..] == Table(Logical(), g)
      ensures status == Ok || (status in {Io, WouldBlock} && sync.Blamed(status))
      ensures old(sync.cache.device.log.faults) <= sync.cache.device.log.faults
      ensures sync.cache.Full() == old(sync.cache.Full())
    {
      hide SyncLayer.Blamed, Represents, Held;
      for sector := 0 to g.fatSectors
        invariant Wired() && dirty == old(dirty)
        invariant old(sync.cache.device.log.faults) <= sync.cache.device.log.faults
        invariant sync.cache.Full() == old(sync.cache.Full())
        invariant forall c :: 0 <= c < fat.Length ==> fat[c] == old(fat[c]) || fat[c] == FatEntry(Logical(), g, c)
        invariant forall c :: 0 <= c < sector * ENTRIES_PER_SECTOR ==> fat[c] == FatEntry(Logical(), g, c)
      {
        status := LoadFatSector(sector);
        if status.Failed() {
          return;
        }
      }
      dirty := [];
      status := Ok;
    }

    method LoadFatSector(sector: nat) returns (status: Status)
      requires Wired() && sector < g.fatSectors
      modifies fat, sync.cache`entries, sync.cache`useClock, sync.cache.device.log
      ensures Wired()
      ensures forall c :: 0 <= c < fat.Length ==>
              fat[c] == (if status == Ok && c / ENTRIES_PER_SECTOR == sector then FatEntry(Logical(), g, c)
                         else old(fat[c]))
      ensures status == Ok || (status in {Io, WouldBlock} && sync.Blamed(status))
      ensures old(sync.cache.device.log.faults) <= sync.cache.device.log.faults
      ensures sync.cache.Full() == old(sync.cache.Full())
    {
      hide EntryOf, SyncLayer.Blamed, Represents, Held;
      var bytes;
      status, bytes := sync.Read(SUPERBLOCK_SECTORS + sector);
      if status.Failed() {
        return;
      }
      forall c | sector * ENTRIES_PER_SECTOR <= c < (sector + 1) * ENTRIES_PER_SECTOR {
        fat[c] := EntryOf(bytes, c % ENTRIES_PER_SECTOR);
      }
    }

    // ----- sectors and clusters -------------------------------------------------------------------

    method ReadCluster(c: nat) returns (status: Status, sectors: seq<Sector>)
      requires Wired() && ClusterInRange(g, c)
      modifies sync.cache`entries, sync.cache`useClock, sync.cache.device.log
      ensures Wired() && (status == Ok || sync.Blamed(status))
      ensures status == Ok ==>
              |sectors| == SECTORS_PER_CLUSTER
              && forall i :: 0 <= i < SECTORS_PER_CLUSTER ==> sectors[i] == Logical()[ClusterSector(g, c) + i]
    {
      hide SyncLayer.Blamed, ClusterSector, Represents, Held;
      ClusterInside(g, c);
      sectors := [];
      for sector := 0 to SECTORS_PER_CLUSTER
        invariant Wired() && |sectors| == sector
        invariant forall i :: 0 <= i < sector ==> sectors[i] == Logical()[ClusterSector(g, c) + i]
      {
        var bytes;
        status, bytes := sync.Read(ClusterSector(g, c) + sector);
        if status.Failed() {
          return;
        }
        sectors := sectors + [bytes];
      }
      status := Ok;
    }

    /** Replaces one record by rewriting the one sector of its cluster that holds it. */
    method PersistSlot(at: Slot, r: Record, component: Component) returns (status: Status)
      requires Wired() && v.IsSlot(at)
      modifies sync`dirtyComponents, sync`lastResult, sync.cache`entries, sync.cache`useClock, sync.cache`logical
      modifies sync.cache.device.log
      ensures Wired() && (status == Ok || sync.Blamed(status))
      ensures status == Ok ==> Logical() == WithRecordAt(v, old(Logical()), at, r)
      ensures status != Ok ==> Logical() == old(Logical())
    {
      hide SyncLayer.Blamed, WithRecord, Represents, Held;
      ClusterInside(g, at.cluster);
      var sectors;
      status, sectors := ReadCluster(at.cluster);
      if status.Failed() {
        return;
      }
      var k := at.index / SLOTS_PER_SECTOR;
      status := sync.WriteSector(ClusterSector(g, at.cluster) + k,
                                 WithRecord(sectors[k], at.index % SLOTS_PER_SECTOR, r), component);
    }

    // ----- lookups --------------------------------------------------------------------------------

    /** The records of any cluster; what it really holds is the caller's business. */
    method ReadDirectory(c: nat) returns (status: Status, slots: seq<Record>)
      requires Wired() && ClusterInRange(g, c)
      modifies sync.cache`entries, sync.cache`useClock, sync.cache.device.log
      ensures Wired() && (status == Ok || sync.Blamed(status))
      ensures status == Ok ==> slots == RecordsOf(Logical(), g, c)
      ensures c in v.dirs ==> RecordsOf(Logical(), g, c) == DirSlots(v, Logical(), c)
    {
      hide SyncLayer.Blamed, Represents, Held;
      slots := [];
      var sectors;
      status, sectors := ReadCluster(c);
      if status.Failed() {
        return;
      }
      slots := seq(SLOTS, i requires 0 <= i < SLOTS => RecordOf(sectors[i / SLOTS_PER_SECTOR], i % SLOTS_PER_SECTOR));
    }

    method ScanDirectory(c: nat) returns (status: Status, entries: seq<Directory.Entry>)
      requires Wired() && ClusterInRange(g, c)
      modifies sync.cache`entries, sync.cache`useClock, sync.cache.device.log
      ensures Wired()
      ensures status == Ok ==> Directory.Scan(RecordsOf(Logical(), g, c)) == Success(entries)
      ensures status == Ok || sync.Blamed(status) || Directory.Scan(RecordsOf(Logical(), g, c)) == Failure(status)
      ensures c in v.dirs ==> RecordsOf(Logical(), g, c) == DirSlots(v, Logical(), c)
    {
      hide Directory.Scan, SyncLayer.Blamed, Represents, Held;
      entries := [];
      var slots;
      status, slots := ReadDirectory(c);
      if status.Failed() {
        return;
      }
      status, entries := Directory.ComputeScan(slots, SLOTS);
    }

    /** The clusters of one directory, in order. */
    method DirectoryChain(directory: nat) returns (status: Status, count: nat)
      requires Wired() && DirsClosed(v, fat[..]) && directory in v.dirs
      modifies chain
      ensures status == Ok ==> count <= MAX_CLUSTERS && IsChain(fat[..], g.Entries(), directory, chain[..count])
      ensures status == Ok ==> forall i :: 0 <= i < count ==> chain[i] in v.dirs
      ensures ChainFrom(fat[..], g.Entries(), directory) ==
              if status == Ok then Success(chain[..count]) else Failure(status)
    {
      hide IsChain, DirsClosed, Represents, Held;
      status, count := FatTable.Traverse(fat, g.Entries(), directory, chain);
      if status.Failed() {
        return;
      }
      ChainIs(fat[..], g.Entries(), directory, chain[..count]);
      forall i | 0 <= i < count ensures chain[i] in v.dirs {
        ChainIsInDirs(v, fat[..], directory, chain[..count], i);
        assert chain[..count][i] == chain[i];
      }
    }

    method FirstHit(q: Query, cluster: nat, entries: seq<Directory.Entry>) returns (index: nat)
      ensures index <= |entries| && forall i :: 0 <= i < index ==> !Hit(q, Found(cluster, entries[i]))
      ensures index < |entries| ==> Hit(q, Found(cluster, entries[index]))
    {
      hide Represents, Held;
      index := 0;
      while index < |entries| && !Hit(q, Found(cluster, entries[index]))
        invariant index <= |entries| && forall i :: 0 <= i < index ==> !Hit(q, Found(cluster, entries[i]))
      {
        index := index + 1;
      }
    }

    /** The first entry of the directory that the query asks for, if there is one. */
    method Search(directory: nat, q: Query) returns (result: Result<Option<Found>>, ghost clusters: seq<u32>)
      requires Wired() && DirsClosed(v, fat[..]) && directory in v.dirs
      modifies chain, sync.cache`entries, sync.cache`useClock, sync.cache.device.log
      ensures Wired()
      ensures result == Searched(v, fat[..], Logical(), directory, q) || (result.Failure? && sync.Blamed(result.error))
      ensures result.Failure? ==> result.error.Failed()
      ensures result.Success? && result.value.Some? ==>
              && Shown(v, Logical(), result.value.value) && Hit(q, result.value.value)
              && Within(v, fat[..], directory, result.value.value.cluster)
      ensures result == Success(None) ==>
              && IsChain(fat[..], g.Entries(), directory, clusters)
              && forall i :: 0 <= i < |clusters| ==> Misses(v, Logical(), clusters[i], q)
    {
      hide SyncLayer.Blamed, Represents, Held;
      hide DirsClosed, IsChain, Misses, Shown, Scans, Hit, Within, Listing, DirSlots, Directory.Scan, RecordsOf;
      hide ChainFrom, SearchIn, Earliest;
      var status, count := DirectoryChain(directory);
      if status.Failed() {
        return Failure(status), [];
      }
      clusters := chain[..count];
      assert clusters[0..] == clusters;
      for index := 0 to count
        invariant Wired() && chain[..count] == clusters
        invariant forall i :: 0 <= i < index ==> Misses(v, Logical(), clusters[i], q)
        invariant SearchIn(v, Logical(), clusters[index..], q) == SearchIn(v, Logical(), clusters, q)
      {
        assert chain[index] == clusters[index];
        SearchStep(v, Logical(), clusters, index, q);
        var entries;
        status, entries := ScanDirectory(chain[index]);
        if status.Failed() {
          return Failure(status), clusters;
        }
        var hit := FirstHit(q, chain[index], entries);
        EarliestIs(q, chain[index], entries, hit);
        EntriesDecide(v, Logical(), chain[index], q, entries);
        if hit < |entries| {
          InChainIsWithin(v, fat[..], directory, clusters, index);
          return Success(Some(Found(chain[index], entries[hit]))), clusters;
        }
      }
      SearchedAll(v, Logical(), clusters, q);
      return Success(None), clusters;
    }

    /** The file whose primary record lies in the given slot, wherever that is. */
    method LocateObject(cluster: nat, primarySlot: nat) returns (result: Result<Option<Found>>)
      requires Wired()
      modifies sync.cache`entries, sync.cache`useClock, sync.cache.device.log
      ensures Wired()
      ensures result == ObjectAt(Logical(), g, cluster, primarySlot) || (result.Failure? && sync.Blamed(result.error))
      ensures if result.Failure? then result.error.Failed() else ClusterInRange(g, cluster)
      ensures result.Success? && result.value.Some? && cluster in v.dirs ==>
              Shown(v, Logical(), result.value.value)
                && Answers(v, fat[..], ByObject(cluster, primarySlot), result.value.value)
    {
      hide Directory.Scan, RecordsOf, DirSlots, ObjectIn, SyncLayer.Blamed, Represents, Held;
      if !ClusterInRange(g, cluster) || primarySlot >= SLOTS {
        return Failure(InvalidArgument);
      }
      var status, entries := ScanDirectory(cluster);
      if status.Failed() {
        return Failure(status);
      }
      for index := 0 to |entries|
        invariant Wired()
        invariant forall i :: 0 <= i < index ==>
                  entries[i].kind != Directory.Regular || entries[i].primarySlot != primarySlot
      {
        if entries[index].kind == Directory.Regular && entries[index].primarySlot == primarySlot {
          ObjectIs(cluster, entries, primarySlot, index);
          return Success(Some(Found(cluster, entries[index])));
        }
      }
      ObjectIs(cluster, entries, primarySlot, |entries|);
      return Success(None);
    }

    ghost predicate Reachable(where: Locator) {
      match where
      case ByName(directory, _) => directory in v.dirs
      case ByObject(cluster, _) => ClusterInRange(g, cluster) ==> cluster in v.dirs
    }

    method Locate(where: Locator) returns (result: Result<Found>)
      requires Wired() && DirsClosed(v, fat[..]) && Reachable(where)
      modifies chain, sync.cache`entries, sync.cache`useClock, sync.cache.device.log
      ensures Wired()
      ensures result == Located(v, fat[..], Logical(), where) || (result.Failure? && sync.Blamed(result.error))
      ensures result.Failure? ==> result.error.Failed()
      ensures result.Success? ==> Shown(v, Logical(), result.value) && Answers(v, fat[..], where, result.value)
    {
      hide Shown, Within, DirsClosed, Searched, ObjectAt, SyncLayer.Blamed, Represents, Held;
      var found;
      match where {
        case ByName(directory, name) =>
          ghost var clusters;
          found, clusters := Search(directory, WholeName(name));
        case ByObject(cluster, primarySlot) =>
          found := LocateObject(cluster, primarySlot);
      }
      match found {
        case Failure(error) => result := Failure(error);
        case Success(None) => result := Failure(NotFound);
        case Success(Some(f)) => result := Success(f);
      }
    }

    /** Finds a regular file, as every operation on an existing file begins. */
    method LocateFile(where: Locator) returns (result: Result<Found>)
      requires Wired() && DirsClosed(v, fat[..]) && Reachable(where)
      modifies chain, sync.cache`entries, sync.cache`useClock, sync.cache.device.log
      ensures Wired()
      ensures result == LocatedFile(v, fat[..], Logical(), where) || (result.Failure? && sync.Blamed(result.error))
      ensures result.Failure? ==> result.error.Failed()
      ensures result.Success? ==>
              && v.IsPair(PairSlot(result.value)) && OnTheWay(v, Logical(), PairSlot(result.value))
              && PairAt(v, Logical(), PairSlot(result.value)) == Some(result.value.entry.primary)
              && result.value.entry.primarySlot == PairSlot(result.value).index + 1
              && Answers(v, fat[..], where, result.value)
    {
      hide Shown, OnTheWay, Answers, DirsClosed, Located, SyncLayer.Blamed, Represents, Held;
      result := Locate(where);
      if result.Failure? {
        return;
      }
      if result.value.entry.kind != Directory.Regular {
        return Failure(InvalidArgument);
      }
      FoundPair(v, Logical(), result.value);
    }

    // ----- steps of an operation ------------------------------------------------------------------

    method Barrier(ghost op: Op) returns (status: Status)
      requires InOp(op) && initialized
      modifies this`initialized, sync, sync.cache`entries, sync.cache`currentGeneration
      modifies sync.cache.device`data, sync.cache.device`maybe, sync.cache.device`exposed, sync.cache.device.log
      ensures InOp(op)
      ensures status == Ok || sync.Blamed(status)
      ensures initialized <==> status == Ok
      ensures status == Ok ==> Durable() == Logical()
    {
      hide Live, Quiescent, Atomic, SyncLayer.Blamed, Represents, Held;
      ghost var durable, logical := Durable(), Logical();
      ghost var maybe, exposed := sync.cache.device.maybe, sync.cache.device.exposed;
      status := sync.Barrier();
      if status.Failed() {
        initialized := false;
      }
      CutsAreAtomic(op, durable, logical, fat[..], claims, maybe, exposed, sync.cache.device.maybe,
                    sync.cache.device.exposed);
      LiveBarrier(op, durable, logical, fat[..], claims);
    }

    method WriteCompanion(ghost op: Op, at: Slot, r: Record) returns (status: Status)
      requires InOp(op) && initialized && at == op.target
      requires r[0] == COMPANION_TYPE || r[0] == DELETED
      requires forall second ::
        second == RecordAt(Durable(), v.g, Second(at)) || second == RecordAt(Logical(), v.g, Second(at))
        ==> Allowed(op, at, FileOf(Pair(r, second), fat[..], Durable(), v.g))
      modifies sync`dirtyComponents, sync`lastResult, sync.cache`entries, sync.cache`useClock, sync.cache`logical
      modifies sync.cache.device.log
      ensures InOp(op)
      ensures status == Ok || sync.Blamed(status)
      ensures status == Ok ==> Logical() == WithRecordAt(v, old(Logical()), at, r)
      ensures status != Ok ==> Logical() == old(Logical())
    {
      hide Live, Quiescent, Traced, SyncLayer.Blamed, Represents, Held;
      ghost var logical := Logical();
      status := PersistSlot(at, r, CompanionRecord);
      if !status.Failed() {
        LiveCompanion(op, Durable(), logical, fat[..], claims, r);
      }
    }

    method WritePrimary(ghost op: Op, at: Slot, r: Record) returns (status: Status)
      requires InOp(op) && initialized && at == Second(op.target)
      requires r[0] != COMPANION_TYPE && r[0] != 0 && Covered(fat[..], v.g, claims, at, r)
      requires FilePrimary(r).Some? || r[0] == DELETED
      requires !NeverUsed(v, Durable(), op.target) && !NeverUsed(v, Logical(), op.target)
      requires forall first ::
        first == RecordAt(Durable(), v.g, op.target) || first == RecordAt(Logical(), v.g, op.target)
        ==> Allowed(op, op.target, FileOf(Pair(first, r), fat[..], Durable(), v.g))
      modifies sync`dirtyComponents, sync`lastResult, sync.cache`entries, sync.cache`useClock, sync.cache`logical
      modifies sync.cache.device.log
      ensures InOp(op)
      ensures status == Ok || sync.Blamed(status)
      ensures status == Ok ==> Logical() == WithRecordAt(v, old(Logical()), at, r)
      ensures status != Ok ==> Logical() == old(Logical())
    {
      hide Live, Quiescent, Traced, SyncLayer.Blamed, Represents, Held;
      ghost var logical := Logical();
      status := PersistSlot(at, r, PrimaryRecord);
      if !status.Failed() {
        LivePrimary(op, Durable(), logical, fat[..], claims, r);
      }
    }

    method PersistTableSector(ghost op: Op, sector: nat) returns (status: Status)
      requires InOp(op) && initialized && sector < g.fatSectors
      modifies sync`dirtyComponents, sync`lastResult, sync.cache`entries, sync.cache`useClock, sync.cache`logical
      modifies sync.cache.device.log
      ensures InOp(op)
      ensures status == Ok || sync.Blamed(status)
      ensures status == Ok ==> TableLanded(v, old(Logical()), fat[..], sector, Logical())
      ensures status != Ok ==> Logical() == old(Logical())
    {
      hide Live, Quiescent, Traced, SyncLayer.Blamed, Represents, Held;
      ghost var logical := Logical();
      status := sync.WriteSector(SUPERBLOCK_SECTORS + sector, TableSector(fat[..], sector), Allocation);
      if !status.Failed() {
        LiveTable(op, Durable(), logical, fat[..], claims, sector);
      }
    }

    /** Memory's table entries for the dirty sectors are on their way to the volume. */
    method PersistFat(ghost op: Op) returns (status: Status)
      requires InOp(op) && initialized
      modifies this`dirty, sync`dirtyComponents, sync`lastResult
      modifies sync.cache`entries, sync.cache`useClock, sync.cache`logical, sync.cache.device.log
      ensures InOp(op) && TableOnly(v, old(Logical()), Logical(), fat[..])
      ensures status == Ok || sync.Blamed(status)
      ensures status == Ok ==> dirty == []
      ensures status == Ok ==> Synced(v, Logical(), fat[..], old(dirty))
    {
      hide Live, Quiescent, Traced, SyncLayer.Blamed, Represents, Held;
      ghost var first, table, due := Logical(), fat[..], dirty;
      TableOnlyStart(v, first, table);
      for index := 0 to |dirty|
        invariant InOp(op) && dirty == due && fat[..] == table
        invariant TableOnly(v, first, Logical(), table) && Synced(v, Logical(), table, due[..index])
      {
        assert due[index] in due;
        if dirty[index] >= g.fatSectors {
          assert false; // marks come from clusters of the table
        }
        ghost var logical := Logical();
        status := PersistTableSector(op, dirty[index]);
        if status.Failed() {
          return;
        }
        TableOnlyStep(v, first, logical, Logical(), table, due[index]);
        SyncedStep(v, logical, Logical(), table, due, index);
      }
      assert due[..|due|] == due;
      dirty := [];
      status := Ok;
    }

    // ----- the commit protocol --------------------------------------------------------------------

    /** The visibility fence: no reader sees the pair once this has returned. */
    method Uncommit(ghost op: Op, at: Slot, name: Name) returns (status: Status)
      requires InOp(op) && initialized && at == op.target && ValidStoredName(name)
      requires Quiescent(op.v, Durable(), Logical(), fat[..], claims)
      modifies this`initialized, sync, sync.cache`entries, sync.cache`useClock, sync.cache`logical
      modifies sync.cache`currentGeneration
      modifies sync.cache.device`data, sync.cache.device`maybe, sync.cache.device`exposed, sync.cache.device.log
      ensures InOp(op)
      ensures status == Ok || sync.Blamed(status)
      ensures status == Ok ==>
              initialized && Durable() == Logical() == WithRecordAt(v, old(Logical()), at, CompanionBytes(name, false))
      ensures status != Ok && initialized ==> Quiescent(op.v, Durable(), Logical(), fat[..], claims)
    {
      hide Live, Quiescent, Traced, SyncLayer.Blamed, Represents, Held;
      var companion := CompanionBytes(name, false);
      UncommittedAllowed(op, Durable(), fat[..], name);
      status := WriteCompanion(op, at, companion);
      if status.Failed() {
        return;
      }
      status := Barrier(op);
    }

    method FlushFat(ghost op: Op) returns (status: Status)
      requires InOp(op) && initialized && SameRecords(v, Durable(), Logical())
      modifies this`initialized, this`dirty, sync, sync.cache`entries, sync.cache`useClock
      modifies sync.cache`logical, sync.cache`currentGeneration
      modifies sync.cache.device`data, sync.cache.device`maybe, sync.cache.device`exposed, sync.cache.device.log
      ensures InOp(op)
      ensures status == Ok || sync.Blamed(status)
      ensures status == Ok && old(Tracked()) ==> Tracked()
      ensures status == Ok ==>
              && initialized && dirty == [] && Durable() == Logical()
              && TableOnly(v, old(Logical()), Logical(), fat[..]) && Synced(v, Logical(), fat[..], old(dirty))
      ensures status != Ok && initialized ==> Quiescent(op.v, Durable(), Logical(), fat[..], claims)
    {
      hide Marked, SyncLayer.Blamed, Represents, Held;
      hide Live, Quiescent, Traced;
      ghost var first, due := Logical(), dirty;
      status := PersistFat(op);
      if status.Failed() {
        LiveSameRecords(op, Durable(), Logical(), fat[..], claims);
        return;
      }
      if Marked(v, first, fat[..], due) {
        MarkedFlushed(v, first, Logical(), fat[..], due);
      }
      status := Barrier(op);
    }

    /** Makes the table durable, and with it the claim on the chain that the table now gives. */
    method SettleTable(ghost op: Op, at: Slot, ghost newChain: seq<u32>) returns (status: Status)
      requires InOp(op) && initialized && Durable() == Logical() && at == op.target
      requires ChainReady(v, Logical(), fat[..], claims, dirty, Second(at), newChain)
      modifies this`initialized, this`dirty, this`claims, sync, sync.cache`entries, sync.cache`useClock
      modifies sync.cache`logical, sync.cache`currentGeneration
      modifies sync.cache.device`data, sync.cache.device`maybe, sync.cache.device`exposed, sync.cache.device.log
      ensures InOp(op)
      ensures status == Ok || sync.Blamed(status)
      ensures status == Ok && old(Tracked()) ==> Tracked()
      ensures status == Ok ==>
              && initialized && dirty == [] && Durable() == Logical()
              && TableOnly(v, old(Logical()), Logical(), fat[..])
              && claims == old(claims)[Second(at) := ClaimOf(old(claims), Second(at)) + ClusterSet(newChain)]
      ensures status != Ok && initialized ==> Quiescent(op.v, Durable(), Logical(), fat[..], claims)
    {
      hide Marked, SyncLayer.Blamed, Represents, Held;
      hide Live, Quiescent, Traced;
      ghost var first, due := Logical(), dirty;
      status := FlushFat(op);
      if status.Failed() {
        return;
      }
      LiveClaim(op, first, Logical(), fat[..], claims, due, Second(at), newChain);
      claims := claims[Second(at) := ClaimOf(claims, Second(at)) + ClusterSet(newChain)];
    }

    /** New primary and committed companion in one barrier: the commit point. */
    method Publish(ghost op: Op, at: Slot, p: Primary) returns (status: Status)
      requires InOp(op) && initialized && Durable() == Logical() && at == op.target
      requires Encodable(p) && p.attributes == ATTRIBUTE_REGULAR
      requires RecordAt(Logical(), v.g, at) == CompanionBytes(p.name, false)
      requires Covered(fat[..], v.g, claims, Second(at), PrimaryBytes(p))
      requires FileOf(Some(p), fat[..], Durable(), v.g) == op.next
      requires OldStillStands(op, Durable(), fat[..])
      modifies this`initialized, sync, sync.cache`entries, sync.cache`useClock, sync.cache`logical
      modifies sync.cache`currentGeneration
      modifies sync.cache.device`data, sync.cache.device`maybe, sync.cache.device`exposed, sync.cache.device.log
      ensures InOp(op)
      ensures status == Ok || sync.Blamed(status)
      ensures status == Ok && old(Tracked()) ==> Tracked()
      ensures status == Ok ==>
              initialized && Durable() == Logical() ==
                  PairWritten(v, old(Logical()), at, CompanionBytes(p.name, true), PrimaryBytes(p))
      ensures status != Ok && initialized ==> Quiescent(op.v, Durable(), Logical(), fat[..], claims)
    {
      hide SyncLayer.Blamed, Represents, Held;
      hide WithRecordAt, RecordAt, FileOf, FileAt, Covered, OldStillStands, CompanionBytes, PrimaryBytes, Encodable;
      hide Allowed;
      hide Marked;
      hide Live, Quiescent, Traced;
      ghost var first := Logical();
      status := StagePrimary(op, Second(at), p);
      if status.Failed() {
        return;
      }
      if Marked(v, first, fat[..], dirty) {
        MarkedRecord(v, first, Second(at), PrimaryBytes(p), fat[..], dirty);
        MarkedRecord(v, Logical(), at, CompanionBytes(p.name, true), fat[..], dirty);
      }
      status := CommitPoint(op, at, p, first);
    }

    method StagePrimary(ghost op: Op, at: Slot, p: Primary) returns (status: Status)
      requires InOp(op) && initialized && Durable() == Logical() && at == Second(op.target)
      requires Encodable(p) && p.attributes == ATTRIBUTE_REGULAR
      requires RecordAt(Logical(), v.g, op.target) == CompanionBytes(p.name, false)
      requires Covered(fat[..], v.g, claims, at, PrimaryBytes(p))
      modifies sync`dirtyComponents, sync`lastResult, sync.cache`entries, sync.cache`useClock, sync.cache`logical
      modifies sync.cache.device.log
      ensures InOp(op)
      ensures status == Ok || sync.Blamed(status)
      ensures status == Ok ==> Logical() == WithRecordAt(v, Durable(), at, PrimaryBytes(p))
      ensures status != Ok ==> Quiescent(op.v, Durable(), Logical(), fat[..], claims)
    {
      hide SyncLayer.Blamed, Represents, Held;
      hide Live, Quiescent, Traced, FilePrimary, Covered, Allowed, NeverUsed, PrimaryBytes, CompanionBytes, FileOf;
      hide Encodable;
      FenceHides(op, Durable(), fat[..], p);
      status := WritePrimary(op, at, PrimaryBytes(p));
      if status.Failed() {
        LiveEqual(op, Durable(), fat[..], claims);
      }
    }

    method CommitPoint(ghost op: Op, at: Slot, p: Primary, ghost first: Disk)
      returns (status: Status)
      requires InOp(op) && initialized && Durable() == first && at == op.target
      requires Encodable(p) && p.attributes == ATTRIBUTE_REGULAR
      requires RecordAt(first, v.g, at) == CompanionBytes(p.name, false)
      requires Logical() == WithRecordAt(v, first, Second(at), PrimaryBytes(p))
      requires FileOf(Some(p), fat[..], Durable(), v.g) == op.next && OldStillStands(op, Durable(), fat[..])
      modifies this`initialized, sync, sync.cache`entries, sync.cache`useClock, sync.cache`logical
      modifies sync.cache`currentGeneration
      modifies sync.cache.device`data, sync.cache.device`maybe, sync.cache.device`exposed, sync.cache.device.log
      ensures InOp(op)
      ensures status == Ok || sync.Blamed(status)
      ensures status == Ok ==>
              && initialized && Durable() == Logical()
              && Logical() == PairWritten(v, first, at, CompanionBytes(p.name, true), PrimaryBytes(p))
      ensures status != Ok && initialized ==> Quiescent(op.v, Durable(), Logical(), fat[..], claims)
    {
      hide Live, Quiescent, Traced, RecordAt, FileOf, FileAt, CompanionBytes, PrimaryBytes, Encodable, SyncLayer.Blamed;
      hide Represents, Held;
      CommittedStaged(op, first, Logical(), fat[..], p);
      status := WriteCompanion(op, at, CompanionBytes(p.name, true));
      if status.Failed() {
        StoppedBeforeCommit(op, Durable(), Logical(), fat[..], claims, p);
        return;
      }
      status := Barrier(op);
    }

    /** Uncommit, settle the table, publish: the whole save protocol for one pair. */
    method Commit(ghost op: Op, at: Slot, p: Primary, ghost newChain: seq<u32>)
      returns (status: Status)
      requires InOp(op) && initialized && at == op.target && Quiescent(op.v, Durable(), Logical(), fat[..], claims)
      requires Encodable(p) && p.attributes == ATTRIBUTE_REGULAR && Backs(fat[..], v.g, p, newChain)
      requires ChainReady(v, Logical(), fat[..], claims, dirty, Second(at), newChain)
      requires FileOf(Some(p), fat[..], Logical(), v.g) == op.next && OldStillStands(op, Logical(), fat[..])
      modifies this`initialized, this`dirty, this`claims, sync, sync.cache`entries, sync.cache`useClock
      modifies sync.cache`logical, sync.cache`currentGeneration
      modifies sync.cache.device`data, sync.cache.device`maybe, sync.cache.device`exposed, sync.cache.device.log
      ensures InOp(op)
      ensures status == Ok || sync.Blamed(status)
      ensures status == Ok && old(Tracked()) ==> Tracked()
      ensures status == Ok ==>
              && initialized && dirty == [] && Durable() == Logical()
              && PairChanged(v, old(Logical()), Logical(), at, CompanionBytes(p.name, true), PrimaryBytes(p))
              && claims == old(claims)[Second(at) := ClaimOf(old(claims), Second(at)) + ClusterSet(newChain)]
      ensures status != Ok && initialized ==> Quiescent(op.v, Durable(), Logical(), fat[..], claims)
    {
      hide Marked, SyncLayer.Blamed, Represents, Held;
      hide Live, Quiescent, Traced, RecordAt, FileOf, FileAt, OldStillStands, ChainReady, Covered, TableOnly;
      hide CompanionBytes, PrimaryBytes;
      ghost var start := Logical();
      status := Prepare(op, at, p, newChain);
      if status.Failed() {
        return;
      }
      ghost var settled := Logical();
      status := Publish(op, at, p);
      if status.Failed() {
        return;
      }
      CommitEffect(v, start, WithRecordAt(v, start, at, CompanionBytes(p.name, false)), settled, fat[..], at, p);
    }

    /** Everything up to the commit point: the pair is hidden and the new chain is durable. */
    method Prepare(ghost op: Op, at: Slot, p: Primary, ghost newChain: seq<u32>)
      returns (status: Status)
      requires InOp(op) && initialized && at == op.target && Quiescent(op.v, Durable(), Logical(), fat[..], claims)
      requires Encodable(p) && p.attributes == ATTRIBUTE_REGULAR && Backs(fat[..], v.g, p, newChain)
      requires ChainReady(v, Logical(), fat[..], claims, dirty, Second(at), newChain)
      requires FileOf(Some(p), fat[..], Logical(), v.g) == op.next && OldStillStands(op, Logical(), fat[..])
      modifies this`initialized, this`dirty, this`claims, sync, sync.cache`entries, sync.cache`useClock
      modifies sync.cache`logical, sync.cache`currentGeneration
      modifies sync.cache.device`data, sync.cache.device`maybe, sync.cache.device`exposed, sync.cache.device.log
      ensures InOp(op)
      ensures status == Ok || sync.Blamed(status)
      ensures status == Ok && old(Tracked()) ==> Tracked()
      ensures status == Ok ==>
              && initialized && dirty == [] && Durable() == Logical()
              && TableOnly(v, WithRecordAt(v, old(Logical()), at, CompanionBytes(p.name, false)), Logical(), fat[..])
              && claims == old(claims)[Second(at) := ClaimOf(old(claims), Second(at)) + ClusterSet(newChain)]
              && RecordAt(Logical(), v.g, at) == CompanionBytes(p.name, false)
              && Covered(fat[..], v.g, claims, Second(at), PrimaryBytes(p))
              && FileOf(Some(p), fat[..], Durable(), v.g) == op.next && OldStillStands(op, Durable(), fat[..])
      ensures status != Ok && initialized ==> Quiescent(op.v, Durable(), Logical(), fat[..], claims)
    {
      hide Marked, SyncLayer.Blamed, Represents, Held;
      hide Live, Quiescent, Traced, FileOf, Backs, Covered, ChainReady, OldStillStands, TableOnly, CompanionBytes;
      hide PrimaryBytes;
      ghost var start := Logical();
      status := Uncommit(op, at, p.name);
      if status.Failed() {
        return;
      }
      ghost var fenced := Logical();
      if Marked(v, start, fat[..], dirty) {
        MarkedRecord(v, start, at, CompanionBytes(p.name, false), fat[..], dirty);
      }
      FenceKeepsChain(v, start, fat[..], claims, dirty, at, CompanionBytes(p.name, false), newChain);
      status := SettleTable(op, at, newChain);
      if status.Failed() {
        return;
      }
      LivePublishReady(op, start, fenced, Logical(), fat[..], claims, p, newChain);
    }

    // ----- allocation and release -----------------------------------------------------------------

    /** Remembers the table sector of a cluster; a full list drops the mark. */
    method MarkFatCluster(c: nat)
      requires Wired() && c < fat.Length
      modifies this`dirty
      ensures Wired() && |dirty| <= |old(dirty)| + 1
      ensures forall s :: s in old(dirty) ==> s in dirty
      ensures |old(dirty)| < MAX_DIRTY ==> c / ENTRIES_PER_SECTOR in dirty
    {
      hide Represents, Held;
      var sector := c / ENTRIES_PER_SECTOR;
      for index := 0 to |dirty|
        invariant dirty == old(dirty) && forall i :: 0 <= i < index ==> dirty[i] != sector
      {
        if dirty[index] == sector {
          return;
        }
      }
      if |dirty| < MAX_DIRTY {
        dirty := dirty + [sector];
      }
    }

    method MarkFatClusters(clusters: array<u32>, count: nat)
      requires Wired() && count <= clusters.Length
      requires forall i :: 0 <= i < count ==> clusters[i] < fat.Length
      modifies this`dirty
      ensures Wired() && |dirty| <= |old(dirty)| + count
      ensures |old(dirty)| + count <= MAX_DIRTY ==>
              (forall s :: s in old(dirty) ==> s in dirty)
              && forall i :: 0 <= i < count ==> clusters[i] / ENTRIES_PER_SECTOR in dirty
    {
      hide Represents, Held;
      for index := 0 to count
        invariant Wired() && |dirty| <= |old(dirty)| + index
        invariant |old(dirty)| + count <= MAX_DIRTY ==>
                    (forall s :: s in old(dirty) ==> s in dirty)
                    && forall i :: 0 <= i < index ==> clusters[i] / ENTRIES_PER_SECTOR in dirty
      {
        MarkFatCluster(clusters[index]);
      }
    }

    /** Links `count` free clusters in memory; the volume does not know yet. */
    method AllocateChain(ghost op: Op, count: nat) returns (status: Status)
      requires InOp(op) && initialized && dirty == [] && count <= MAX_CLUSTERS
      requires Quiescent(op.v, Durable(), Logical(), fat[..], claims)
      modifies this`dirty, fat, chain
      ensures InOp(op) && Quiescent(op.v, Durable(), Logical(), fat[..], claims)
      ensures status == Ok ==> Reserved(v, fat[..], claims, dirty, chain[..count])
      ensures status == Ok ==> forall c :: 0 <= c < fat.Length && c !in chain[..count] ==> fat[c] == old(fat[c])
      ensures status == Ok && count > 0 ==> dirty != []
      ensures status != Ok ==> fat[..] == old(fat[..]) && dirty == []
      ensures status == if HasClusters(v, old(fat[..]), count) then Ok else NoSpace
      ensures status == Ok && old(Tracked()) ==> Tracked()
    {
      hide Reserved, Linked, IsChain, Distinct, Guarded, Represents, Held;
      hide Marked;
      hide Live, Quiescent, Traced;
      if count == 0 {
        assert chain[..0] == [];
        NoneReserved(v, fat[..], claims, dirty);
        return Ok;
      }
      ghost var table := fat[..];
      var taken;
      status, taken := FatTable.Allocate(fat, g.Entries(), count, chain, 0);
      if status.Failed() {
        return;
      }
      assert chain[0..count] == chain[..count];
      AllocationKeepsOp(op, Durable(), Logical(), table, fat[..], claims, chain[..count]);
      ReservedInTable(v, fat[..], claims, chain[..count]);
      assert forall i :: 0 <= i < count ==> chain[..count][i] == chain[i];
      MarkFatClusters(chain, count);
      ReservedMarked(v, fat[..], claims, dirty, chain[..count]);
      if Marked(v, Logical(), table, []) {
        MarkedEntries(v, Logical(), table, fat[..], chain[..count], dirty);
      }
    }

    /** Gives back a chain that no claim covers any more, in memory and then on the volume. */
    method ReleaseChain(ghost op: Op, firstCluster: u32) returns (status: Status)
      requires InOp(op) && initialized && Durable() == Logical()
      requires firstCluster != 0 ==> Unclaimed(v, fat[..], claims, firstCluster)
      modifies this`initialized, this`dirty, fat, oldChain, sync, sync.cache`entries, sync.cache`useClock
      modifies sync.cache`logical, sync.cache`currentGeneration
      modifies sync.cache.device`data, sync.cache.device`maybe, sync.cache.device`exposed, sync.cache.device.log
      ensures InOp(op)
      ensures initialized ==> Quiescent(op.v, Durable(), Logical(), fat[..], claims)
      ensures status == Ok ==>
              && initialized && Durable() == Logical()
              && (forall c :: ClusterInRange(g, c) ==> ClusterAt(Logical(), g, c) == ClusterAt(old(Logical()), g, c))
              && SameRecords(v, old(Logical()), Logical())
      ensures forall c :: 0 <= c < fat.Length && Claimed(claims, c) ==> fat[c] == old(fat[c])
      ensures || status == Ok || sync.Blamed(status)
              || (firstCluster != 0 && ChainFrom(old(fat[..]), g.Entries(), firstCluster) == Failure(status))
      ensures status == Ok && firstCluster != 0 ==> ChainFrom(old(fat[..]), g.Entries(), firstCluster).Success?
      ensures status == Ok && old(dirty) == [] && old(Tracked()) ==> dirty == [] && Tracked()
      ensures status == Ok ==> Freed(old(fat[..]), fat[..], g.Entries(), firstCluster)
      ensures status != Ok && !sync.Blamed(status) ==>
              && fat[..] == old(fat[..]) && dirty == old(dirty) && Logical() == old(Logical())
              && Durable() == old(Durable())
              && initialized
    {
      hide Marked, SyncLayer.Blamed, Represents, Held;
      hide Live, Quiescent, Traced, ChainFrom, Unclaimed;
      if firstCluster == 0 {
        LiveEqual(op, Durable(), fat[..], claims);
        return Ok;
      }
      status := ForgetChain(op, firstCluster);
      if status.Failed() {
        LiveEqual(op, Durable(), fat[..], claims);
        return;
      }
      status := FlushFat(op);
      if !status.Failed() {
        LiveEqual(op, Durable(), fat[..], claims);
      }
    }

    method ForgetChain(ghost op: Op, firstCluster: u32) returns (status: Status)
      requires InOp(op) && initialized && Unclaimed(v, fat[..], claims, firstCluster)
      modifies this`dirty, fat, oldChain
      ensures InOp(op)
      ensures forall c :: 0 <= c < fat.Length && Claimed(claims, c) ==> fat[c] == old(fat[c])
      ensures if status == Ok then ChainFrom(old(fat[..]), g.Entries(), firstCluster).Success?
              else ChainFrom(old(fat[..]), g.Entries(), firstCluster) == Failure(status)
      ensures status == Ok && old(dirty) == [] && old(Tracked()) ==> Tracked()
      ensures if status == Ok then Freed(old(fat[..]), fat[..], g.Entries(), firstCluster)
              else fat[..] == old(fat[..]) && dirty == old(dirty)
    {
      hide IsChain, Released, Distinct, ChainFrom, Unclaimed, Guarded, Freed, Represents, Held;
      hide Marked;
      hide Live, Quiescent, Traced;
      ghost var table := fat[..];
      var count;
      status, count := FatTable.Free(fat, g.Entries(), firstCluster, oldChain);
      if status.Failed() {
        NoChainFrom(table, g.Entries(), firstCluster);
        return;
      }
      LiveRelease(op, Durable(), Logical(), table, fat[..], claims, firstCluster, oldChain[..count]);
      ChainIs(table, g.Entries(), firstCluster, oldChain[..count]);
      ChainInTable(table, g.Entries(), firstCluster, oldChain[..count]);
      assert forall i :: 0 <= i < count ==> oldChain[..count][i] == oldChain[i];
      ReleasedIsFreed(table, fat[..], g.Entries(), firstCluster, oldChain[..count]);
      MarkFatClusters(oldChain, count);
      if old(dirty) == [] && Marked(v, Logical(), table, []) {
        ReleasedElsewhere(table, fat[..], oldChain[..count]);
        MarkedEntries(v, Logical(), table, fat[..], oldChain[..count], dirty);
      }
    }

    // ----- content --------------------------------------------------------------------------------

    /** Writes one cluster that no file has; nothing a reader can reach changes. */
    method WriteCluster(ghost op: Op, c: nat, bytes: seq<Byte>) returns (status: Status)
      requires InOp(op) && initialized && Quiescent(op.v, Durable(), Logical(), fat[..], claims)
      requires |bytes| == CLUSTER_BYTES && ClusterInRange(g, c) && c !in v.dirs && !Claimed(claims, c)
      modifies sync`dirtyComponents, sync`lastResult, sync.cache`entries, sync.cache`useClock, sync.cache`logical
      modifies sync.cache.device.log
      ensures InOp(op) && Quiescent(op.v, Durable(), Logical(), fat[..], claims)
      ensures status == Ok || sync.Blamed(status)
      ensures DataOnly(v, old(Logical()), Logical(), c)
      ensures status == Ok ==> ClusterAt(Logical(), g, c) == bytes
    {
      hide Live, Quiescent, Traced, SyncLayer.Blamed, Represents, Held;
      ghost var first := Logical();
      for sector := 0 to SECTORS_PER_CLUSTER
        invariant InOp(op) && Quiescent(op.v, Durable(), Logical(), fat[..], claims)
        invariant DataOnly(v, first, Logical(), c) && Filled(Logical(), g, c, bytes, sector)
      {
        ghost var logical := Logical();
        status := WriteDataSector(op, c, sector, SectorOf(bytes, sector), first);
        if status.Failed() {
          return;
        }
        FilledStep(logical, g, c, bytes, sector);
      }
      status := Ok;
    }

    method WriteDataSector(ghost op: Op, c: nat, sector: nat, bytes: Sector, ghost first: Disk)
      returns (status: Status)
      requires InOp(op) && initialized && Quiescent(op.v, Durable(), Logical(), fat[..], claims)
      requires ClusterInRange(g, c) && sector < SECTORS_PER_CLUSTER && c !in v.dirs && !Claimed(claims, c)
      requires DataOnly(v, first, Logical(), c)
      modifies sync`dirtyComponents, sync`lastResult, sync.cache`entries, sync.cache`useClock, sync.cache`logical
      modifies sync.cache.device.log
      ensures InOp(op) && Quiescent(op.v, Durable(), Logical(), fat[..], claims)
      ensures status == Ok || sync.Blamed(status)
      ensures DataOnly(v, first, Logical(), c)
      ensures status == Ok ==> Logical() == old(Logical())[ClusterSector(g, c) + sector := bytes]
    {
      hide Live, Quiescent, Traced, DataOnly, SyncLayer.Blamed, Represents, Held;
      ghost var durable, logical, table := Durable(), Logical(), fat[..];
      status := sync.WriteSector(ClusterSector(g, c) + sector, bytes, Content);
      assert Durable() == durable && fat[..] == table && Wired() && Traced(op);
      if !status.Failed() {
        DataSectorKeeps(op, durable, first, logical, table, claims, c, ClusterSector(g, c) + sector, bytes);
      }
    }

    // ----- the operations -------------------------------------------------------------------------

    /** A free slot pair in the first cluster of the directory that has one. */
    method FindFileSlots(directory: nat) returns (status: Status, at: Slot)
      requires Wired() && DirsClosed(v, fat[..]) && directory in v.dirs
      modifies chain, sync.cache`entries, sync.cache`useClock, sync.cache.device.log
      ensures Wired()
      ensures status == Ok ==>
              && v.IsPair(at) && Directory.PairFree(DirSlots(v, Logical(), at.cluster), at.index)
              && (forall k :: 0 <= k < at.index ==> !Directory.PairFree(DirSlots(v, Logical(), at.cluster), k))
              && forall cs :: IsChain(fat[..], g.Entries(), directory, cs) ==>
                   FirstWithRoom(v, Logical(), cs, at.cluster)
      ensures sync.Blamed(status) || status == PairAnswer(v, fat[..], Logical(), directory)
    {
      hide SyncLayer.Blamed, Represents, Held;
      hide DirsClosed, IsChain, Directory.PairFree, Packed, FirstWithRoom, ChainFrom, RecordsOf, DirSlots;
      at := Slot(0, 0);
      var count;
      status, count := DirectoryChain(directory);
      if status.Failed() {
        return;
      }
      ghost var clusters := chain[..count];
      for index := 0 to count
        invariant Wired() && chain[..count] == clusters
        invariant forall j :: 0 <= j < index ==> Packed(v, Logical(), clusters[j])
      {
        assert chain[index] == clusters[index];
        status, at := FindPairIn(chain[index]);
        if status == Ok {
          FirstFound(v, Logical(), fat[..], directory, clusters, index);
          PairMeansRoom(v, Logical(), clusters, index, at.index);
          return;
        }
        if status != NoSpace {
          return;
        }
      }
      status := NoSpace;
    }

    /** The first free slot pair of one directory cluster. */
    method FindPairIn(c: nat) returns (status: Status, at: Slot)
      requires Wired() && c in v.dirs
      modifies sync.cache`entries, sync.cache`useClock, sync.cache.device.log
      ensures Wired() && (status in {Ok, NoSpace} || sync.Blamed(status))
      ensures status == Ok ==>
              && at.cluster == c && v.IsPair(at) && Directory.PairFree(DirSlots(v, Logical(), c), at.index)
              && forall k :: 0 <= k < at.index ==> !Directory.PairFree(DirSlots(v, Logical(), c), k)
      ensures status == NoSpace ==> Packed(v, Logical(), c)
    {
      hide Directory.PairFree, RecordsOf, DirSlots, Represents, Held;
      at := Slot(c, 0);
      var slots;
      status, slots := ReadDirectory(c);
      if status.Failed() {
        return;
      }
      var companionSlot;
      status, companionSlot := Directory.FindPairSlots(slots);
      at := Slot(c, companionSlot);
    }

    /** The operation that the contracts speak of while no target is known yet. */
    ghost function Nothing(): Op
      reads sync.cache.device
    {
      Op(v, Durable(), Slot(2, 0), NoFile)
    }

    /** From here on every image that a power cut could leave is watched. */
    ghost method StartWatch()
      requires Idle() && initialized
      modifies sync.cache.device`exposed, sync.cache.device`past, sync.cache.device.log
      ensures Idle() && Traced(Nothing()) && sync.cache.device.log.faults == 0
      ensures sync.cache.device.exposed == iset{Durable()} && sync.cache.device.past == old(sync.cache.device.History())
    {
      hide Live, Quiescent, Atomic, Represents, Held;
      sync.cache.device.Watch();
      StartIsAtomic(Nothing(), Logical(), fat[..], claims);
    }

    /** The target is known and nothing has been written yet. */
    ghost method Begin(op: Op)
      requires Idle() && initialized && sync.cache.device.exposed == iset{Durable()}
      requires op.Valid() && op.v == v && op.start == Durable()
      requires OnTheWay(v, Logical(), op.target) && WholeOrFree(v, Logical(), op.target)
      ensures InOp(op) && Aimed(op)
      ensures PairAt(v, Durable(), op.target) == PairAt(v, Logical(), op.target)
    {
      hide Live, Quiescent, Atomic, OnTheWay, WholeOrFree, Aimed, Represents, Held;
      PlaceIsAimed(op, Logical(), fat[..], claims);
      StartIsAtomic(op, Logical(), fat[..], claims);
      OperationBegins(op, Logical(), fat[..], claims);
    }

    /** A new, empty file, unless its base name is taken. */
    method Create(directory: nat, name: Name) returns (status: Status, ghost op: Op)
      requires Idle() && directory in v.dirs && ValidStoredName(name)
      modifies this`initialized, this`dirty, this`claims, chain, sync, sync.cache`entries, sync.cache`useClock
      modifies sync.cache`logical, sync.cache`currentGeneration
      modifies sync.cache.device`data, sync.cache.device`maybe, sync.cache.device`exposed, sync.cache.device`past
      modifies sync.cache.device.log
      ensures Idle() && op.Valid() && op.v == v && op.start == old(Durable())
      ensures if old(initialized) && writable
              then Answered(Creating(directory, name), status, op)
                   && sync.cache.device.past == old(sync.cache.device.History())
              else Declined(status)
    {
      hide Live, Quiescent, Traced, Atomic, Serves, Listed, FileAt, Answer, Leaves, Overlong, Table, Represents, Held;
      op := Nothing();
      if !initialized {
        return InvalidState, op;
      }
      if !writable {
        return ReadOnly, op;
      }
      StartWatch();
      status, op := CreateWatched(directory, name);
    }

    method CreateWatched(directory: nat, name: Name) returns (status: Status, ghost op: Op)
      requires Idle() && initialized && sync.cache.device.exposed == iset{Durable()} && directory in v.dirs
               && ValidStoredName(name)
      requires Traced(Nothing())
      modifies this`initialized, this`dirty, this`claims, chain, sync, sync.cache`entries, sync.cache`useClock
      modifies sync.cache`logical, sync.cache`currentGeneration
      modifies sync.cache.device`data, sync.cache.device`maybe, sync.cache.device`exposed, sync.cache.device.log
      ensures Answered(Creating(directory, name), status, op)
    {
      hide Leaves, Represents, Held;
      hide Searched, PairAnswer;
      hide Live, Quiescent, Traced, Atomic, Guarded, CreatedIn, RecordsChanged, CompanionBytes, PrimaryBytes, Encodable;
      hide Misses, IsChain, Directory.PairFree, DirsClosed, Within, OnTheWay, WholeOrFree, Directory.Unused, PairAt;
      hide Pair;
      hide Aimed, Serves, Listed, FirstWithRoom, DirSlots, FileAt;
      op := Nothing();
      var found;
      ghost var clusters;
      QuiescentFacts(v, Durable(), Logical(), fat[..], claims);
      found, clusters := Search(directory, BaseName(name, None));
      if found.Failure? {
        return found.error, op;
      }
      if found.value.Some? {
        return AlreadyExists, op;
      }
      var at;
      status, at := FindFileSlots(directory);
      if status.Failed() {
        return;
      }
      FreePairInDirectory(v, Durable(), Logical(), fat[..], claims, directory, clusters, BaseName(name, None), at);
      status, op := CreateFound(directory, name, at, clusters);
    }

    method CreateFound(directory: nat, name: Name, at: Slot, ghost clusters: seq<u32>)
      returns (status: Status, ghost op: Op)
      requires Idle() && initialized && sync.cache.device.exposed == iset{Durable()} && ValidStoredName(name)
      requires directory in v.dirs && IsChain(fat[..], g.Entries(), directory, clusters) && at.cluster in clusters
      requires forall i :: 0 <= i < |clusters| ==> Misses(v, Logical(), clusters[i], BaseName(name, None))
      requires v.IsPair(at) && OnTheWay(v, Logical(), at) && WholeOrFree(v, Logical(), at)
      requires PairAt(v, Logical(), at) == None && Directory.Unused(RecordAt(Logical(), v.g, Second(at)))
      requires Directory.PairFree(DirSlots(v, Logical(), at.cluster), at.index)
      requires forall k :: 0 <= k < at.index ==> !Directory.PairFree(DirSlots(v, Logical(), at.cluster), k)
      modifies this`initialized, this`dirty, this`claims, sync, sync.cache`entries, sync.cache`useClock
      modifies sync.cache`logical, sync.cache`currentGeneration
      modifies sync.cache.device`data, sync.cache.device`maybe, sync.cache.device`exposed, sync.cache.device.log
      ensures Idle() && Traced(op)
      ensures status == Ok || sync.Blamed(status)
      ensures old(Settled()) && !status.FromBelow() ==> Settled()
      ensures old(Settled()) && status == Ok ==> Leaves(op, Durable())
      ensures op.Valid() && op.v == v && op.start == old(Durable()) && Serves(Creating(directory, name), op)
      ensures status == Ok ==>
              && initialized && Durable() == Logical() && FileAt(v, Durable(), op.target) == op.next
              && Listed(Creating(directory, name), op, old(Logical()), Logical())
    {
      hide Marked, Published, Leaves, Represents, Held;
      hide Live, Quiescent, Traced, Atomic, Guarded, CreatedIn, RecordsChanged, CompanionBytes, PrimaryBytes, Encodable;
      hide Misses, IsChain, Directory.PairFree, DirsClosed, Within, OnTheWay, WholeOrFree, Directory.Unused, PairAt;
      hide Pair;
      hide Aimed, Serves, Listed, DirSlots, FileAt, Table;
      op := Op(v, Durable(), at, File(name, []));
      Begin(op);
      CreateServes(op, Logical(), fat[..], claims, directory, clusters, name);
      ghost var first := Logical();
      MarkedIsTable(v, first, fat[..]);
      status := CreateAt(op, at, name);
      if !status.Failed() {
        CreateListed(v, Table(op.start, g), directory, clusters, first, Logical(), at,
                     Primary(name, ATTRIBUTE_REGULAR, 0, 0));
        IsListed(op, first, Logical());
        MarkedIsTable(v, Logical(), fat[..]);
        if old(Settled()) {
          CreatedLeaves(op, Durable(), fat[..], claims, Primary(name, ATTRIBUTE_REGULAR, 0, 0));
        }
      }
    }

    method CreateAt(ghost op: Op, at: Slot, name: Name) returns (status: Status)
      requires InOp(op) && initialized && at == op.target && Quiescent(op.v, Durable(), Logical(), fat[..], claims)
      requires ValidStoredName(name) && op.next == File(name, [])
      requires Directory.Unused(RecordAt(Logical(), v.g, Second(at)))
      modifies this`initialized, this`dirty, this`claims, sync, sync.cache`entries, sync.cache`useClock
      modifies sync.cache`logical, sync.cache`currentGeneration
      modifies sync.cache.device`data, sync.cache.device`maybe, sync.cache.device`exposed, sync.cache.device.log
      ensures Idle() && Traced(op)
      ensures status == Ok || sync.Blamed(status)
      ensures status == Ok ==> Published(op, Durable(), fat[..], claims, Primary(name, ATTRIBUTE_REGULAR, 0, 0), [])
      ensures status == Ok && old(Tracked()) ==> dirty == [] && Tracked()
      ensures status == Ok ==>
              && initialized && Durable() == Logical() && FileAt(v, Durable(), at) == op.next
              && Encodable(Primary(name, ATTRIBUTE_REGULAR, 0, 0))
              && RecordsChanged(v, old(Logical()), Logical(), at, CompanionBytes(name, true),
                                PrimaryBytes(Primary(name, ATTRIBUTE_REGULAR, 0, 0)))
    {
      hide Marked, SyncLayer.Blamed, Represents, Held;
      hide Live, Quiescent, Traced, Published, RecordsChanged, CompanionBytes, PrimaryBytes;
      CreateReady(op, Logical(), fat[..], claims, dirty, name);
      var p := Primary(name, ATTRIBUTE_REGULAR, 0, 0);
      status := PublishFile(op, at, p, []);
      if !status.Failed() {
        PublishedShows(op, Durable(), fat[..], claims, p, []);
        LiveEqual(op, Durable(), fat[..], claims);
      }
    }

    /** The commit, and what the device shows afterwards. */
    method PublishFile(ghost op: Op, at: Slot, p: Primary, ghost newChain: seq<u32>) returns (status: Status)
      requires InOp(op) && initialized && at == op.target && Quiescent(op.v, Durable(), Logical(), fat[..], claims)
      requires CommitReady(op, Logical(), fat[..], claims, dirty, p, newChain)
      modifies this`initialized, this`dirty, this`claims, sync, sync.cache`entries, sync.cache`useClock
      modifies sync.cache`logical, sync.cache`currentGeneration
      modifies sync.cache.device`data, sync.cache.device`maybe, sync.cache.device`exposed, sync.cache.device.log
      ensures InOp(op)
      ensures status == Ok || sync.Blamed(status)
      ensures status == Ok && old(Tracked()) ==> Tracked()
      ensures status == Ok ==>
              && initialized && dirty == [] && Durable() == Logical()
              && claims == old(claims)[Second(at) := ClaimOf(old(claims), Second(at)) + ClusterSet(newChain)]
              && Published(op, Durable(), fat[..], claims, p, newChain)
              && PairChanged(v, old(Logical()), Logical(), at, CompanionBytes(p.name, true), PrimaryBytes(p))
      ensures status != Ok && initialized ==> Quiescent(op.v, Durable(), Logical(), fat[..], claims)
    {
      hide Marked, SyncLayer.Blamed, Represents, Held;
      hide Live, Quiescent, Traced, Published, PairChanged;
      ghost var first, before, due := Logical(), claims, dirty;
      status := Commit(op, at, p, newChain);
      if !status.Failed() {
        CommitPublishes(op, first, Durable(), fat[..], before, due, p, newChain);
      }
    }

    // ----- saving content -------------------------------------------------------------------------

    method CollectChain(p: Primary, workspace: array<u32>) returns (status: Status, count: nat)
      requires Wired() && workspace.Length == MAX_CLUSTERS && workspace != fat
      modifies workspace
      ensures status == Ok ==>
              && count <= MAX_CLUSTERS
              && if p.fileSize == 0 then count == 0 && p.firstCluster == 0
                 else IsChain(fat[..], g.Entries(), p.firstCluster, workspace[..count])
      ensures FileChain(v, fat[..], p) == if status == Ok then Success(workspace[..count]) else Failure(status)
    {
      hide Represents, Held;
      assert workspace[..0] == [];
      if p.fileSize == 0 {
        return if p.firstCluster == 0 then Ok else Corrupt, 0;
      }
      status, count := FatTable.Traverse(fat, g.Entries(), p.firstCluster, workspace);
      if !status.Failed() {
        ChainIs(fat[..], g.Entries(), p.firstCluster, workspace[..count]);
      }
    }

    /** What cluster `index` of the new chain is to hold: old content, then input laid over it. */
    method BuildCluster(index: nat, fileSize: nat, oldCount: nat, bytes: seq<Byte>, append: bool, ghost kept: seq<Byte>)
      returns (status: Status, buffer: seq<Byte>)
      requires Wired() && oldCount <= MAX_CLUSTERS && |kept| == if append then fileSize else 0
      requires append ==>
               Carries(Logical(), g, oldChain[..oldCount], kept, oldCount) && fileSize <= oldCount * CLUSTER_BYTES
      modifies sync.cache`entries, sync.cache`useClock, sync.cache.device.log
      ensures Wired()
      ensures status == Ok || sync.Blamed(status)
      ensures status == Ok ==> PartOf(buffer, kept + bytes, index)
    {
      hide PartOf, Overlaid, SyncLayer.Blamed, Represents, Held;
      var start := index * CLUSTER_BYTES;
      buffer := Zeros(CLUSTER_BYTES);
      if append && start < fileSize && index < oldCount {
        assert oldChain[..oldCount][index] == oldChain[index];
        var sectors;
        status, sectors := ReadCluster(oldChain[index]);
        if status.Failed() {
          return;
        }
        buffer := Flattened(sectors);
        FlattenedIsCluster(Logical(), g, oldChain[index], sectors);
        ReadIsPart(Logical(), g, oldChain[..oldCount], kept, index);
      } else {
        PastEndIsPart(buffer, kept, index);
      }
      OverlaidIsPart(buffer, kept, bytes, index);
      buffer := Overlaid(buffer, bytes, if append then fileSize else 0, start);
      status := Ok;
    }

    /** Writes and makes durable every cluster of the new chain, in order; nothing refers to it yet. */
    method WriteContent(ghost op: Op, ghost f: OldFile, fileSize: nat, oldCount: nat, newCount: nat,
                        bytes: seq<Byte>, append: bool, ghost kept: seq<Byte>)
      returns (status: Status)
      requires InOp(op) && initialized && Quiescent(op.v, Durable(), Logical(), fat[..], claims)
      requires oldCount <= MAX_CLUSTERS && newCount <= MAX_CLUSTERS
      requires Stands(op, Logical(), fat[..], claims, f) && f.chain == oldChain[..oldCount]
               && fileSize == f.primary.fileSize
      requires kept == if append then f.content else []
      requires Reserved(op.v, fat[..], claims, dirty, chain[..newCount])
      modifies this`initialized, this`dirty, fat, sync, sync.cache`entries, sync.cache`useClock
      modifies sync.cache`logical, sync.cache`currentGeneration
      modifies sync.cache.device`data, sync.cache.device`maybe, sync.cache.device`exposed, sync.cache.device.log
      ensures InOp(op)
      ensures status == Ok || sync.Blamed(status)
      ensures status == Ok && old(Tracked()) ==> Tracked()
      ensures initialized ==> Quiescent(op.v, Durable(), Logical(), fat[..], claims)
      ensures status == Ok ==>
              && initialized && fat[..] == old(fat[..]) && dirty == old(dirty)
              && Stands(op, Logical(), fat[..], claims, f) && SameRecords(v, old(Logical()), Logical())
              && Carries(Logical(), op.v.g, chain[..newCount], kept + bytes, newCount)
    {
      hide Marked, SyncLayer.Blamed, Represents, Held;
      hide Live, Quiescent, Traced, Stands, Carries, Reserved;
      ghost var table, due, clusters := fat[..], dirty, chain[..newCount];
      NothingCarried(op, Logical(), table, claims, due, clusters, kept + bytes);
      for index := 0 to newCount
        invariant InOp(op) && initialized && Quiescent(op.v, Durable(), Logical(), fat[..], claims)
        invariant fat[..] == table && dirty == due && (old(Tracked()) ==> Tracked())
        invariant Stands(op, Logical(), table, claims, f) && SameRecords(v, old(Logical()), Logical())
        invariant Carries(Logical(), op.v.g, clusters, kept + bytes, index)
      {
        status := WriteNext(op, f, fileSize, oldCount, index, newCount, bytes, append, kept);
        if status.Failed() {
          return;
        }
      }
      status := Ok;
    }

    /** Throws away what memory's table has beyond the volume's. */
    method Rollback(ghost op: Op)
      requires InOp(op) && initialized && Quiescent(op.v, Durable(), Logical(), fat[..], claims)
      modifies this`dirty, fat, sync.cache`entries, sync.cache`useClock, sync.cache.device.log
      ensures InOp(op) && Quiescent(op.v, Durable(), Logical(), fat[..], claims)
      ensures old(sync.cache.device.log.faults) <= sync.cache.device.log.faults
      ensures sync.cache.Full() == old(sync.cache.Full())
    {
      hide Live, Quiescent, Traced, FatEntry, Represents, Held;
      ghost var table := fat[..];
      var ignored := LoadFat();
      LiveReload(op, Durable(), Logical(), table, fat[..], claims);
    }

    method WriteNext(ghost op: Op, ghost f: OldFile, fileSize: nat, oldCount: nat, index: nat, newCount: nat,
                     bytes: seq<Byte>, append: bool, ghost kept: seq<Byte>)
      returns (status: Status)
      requires InOp(op) && initialized && Quiescent(op.v, Durable(), Logical(), fat[..], claims)
      requires oldCount <= MAX_CLUSTERS && index < newCount <= MAX_CLUSTERS
      requires Stands(op, Logical(), fat[..], claims, f) && f.chain == oldChain[..oldCount]
               && fileSize == f.primary.fileSize
      requires kept == if append then f.content else []
      requires Reserved(op.v, fat[..], claims, dirty, chain[..newCount])
      requires Carries(Logical(), op.v.g, chain[..newCount], kept + bytes, index)
      modifies this`initialized, this`dirty, fat, sync, sync.cache`entries, sync.cache`useClock
      modifies sync.cache`logical, sync.cache`currentGeneration
      modifies sync.cache.device`data, sync.cache.device`maybe, sync.cache.device`exposed, sync.cache.device.log
      ensures InOp(op)
      ensures status == Ok || sync.Blamed(status)
      ensures status == Ok && old(Tracked()) ==> Tracked()
      ensures initialized ==> Quiescent(op.v, Durable(), Logical(), fat[..], claims)
      ensures status == Ok ==>
              && initialized && fat[..] == old(fat[..]) && dirty == old(dirty)
              && Stands(op, Logical(), fat[..], claims, f) && SameRecords(v, old(Logical()), Logical())
              && Carries(Logical(), op.v.g, chain[..newCount], kept + bytes, index + 1)
    {
      hide Live, Quiescent, Traced, Stands, Carries, Reserved, PartOf, Represents, Held;
      StandsCarries(op, Logical(), fat[..], claims, f);
      var buffer;
      status, buffer := BuildCluster(index, fileSize, oldCount, bytes, append, kept);
      if status.Failed() {
        Rollback(op);
        return;
      }
      status := LandCluster(op, f, index, newCount, buffer, kept + bytes);
    }

    /** Writes one cluster of the new chain and makes it durable. */
    method LandCluster(ghost op: Op, ghost f: OldFile, index: nat, newCount: nat, buffer: seq<Byte>,
                       ghost content: seq<Byte>)
      returns (status: Status)
      requires InOp(op) && initialized && Quiescent(op.v, Durable(), Logical(), fat[..], claims)
      requires index < newCount <= MAX_CLUSTERS && PartOf(buffer, content, index)
      requires Stands(op, Logical(), fat[..], claims, f)
      requires Reserved(op.v, fat[..], claims, dirty, chain[..newCount])
      requires Carries(Logical(), op.v.g, chain[..newCount], content, index)
      modifies this`initialized, this`dirty, fat, sync, sync.cache`entries, sync.cache`useClock
      modifies sync.cache`logical, sync.cache`currentGeneration
      modifies sync.cache.device`data, sync.cache.device`maybe, sync.cache.device`exposed, sync.cache.device.log
      ensures InOp(op)
      ensures status == Ok || sync.Blamed(status)
      ensures status == Ok && old(Tracked()) ==> Tracked()
      ensures initialized ==> Quiescent(op.v, Durable(), Logical(), fat[..], claims)
      ensures status == Ok ==>
              && initialized && fat[..] == old(fat[..]) && dirty == old(dirty)
              && Stands(op, Logical(), fat[..], claims, f) && SameRecords(v, old(Logical()), Logical())
              && Carries(Logical(), op.v.g, chain[..newCount], content, index + 1)
    {
      hide Marked, Live, Quiescent, Traced, Stands, Carries, Reserved, PartOf, DataOnly, Represents, Held;
      ghost var clusters, first := chain[..newCount], Logical();
      PartLength(buffer, content, index);
      ReservedAt(op.v, fat[..], claims, dirty, clusters, index);
      assert clusters[index] == chain[index];
      status := WriteCluster(op, chain[index], buffer);
      if status.Failed() {
        Rollback(op);
        return;
      }
      if Marked(v, first, fat[..], dirty) {
        MarkedData(v, first, Logical(), chain[index], fat[..], dirty);
      }
      ContentLanded(op, first, Logical(), fat[..], claims, f, clusters, content, index);
      status := Barrier(op);
      if !status.Failed() {
        LiveEqual(op, Durable(), fat[..], claims);
      }
    }

    /** Replaces a file's content, or adds to its end; at every moment the old file or the new one stands. */
    method SaveContent(where: Locator, bytes: seq<Byte>, append: bool) returns (status: Status, ghost op: Op)
      requires Idle() && Reachable(where)
      modifies this`initialized, this`dirty, this`claims, fat, chain, oldChain, sync, sync.cache`entries
      modifies sync.cache`useClock, sync.cache`logical, sync.cache`currentGeneration
      modifies sync.cache.device`data, sync.cache.device`maybe, sync.cache.device`exposed, sync.cache.device`past
      modifies sync.cache.device.log
      ensures Idle() && op.Valid() && op.v == v && op.start == old(Durable())
      ensures if old(initialized) && writable
              then Answered(if append then Appending(where, bytes) else Replacing(where, bytes), status, op)
                   && sync.cache.device.past == old(sync.cache.device.History())
              else Declined(status)
    {
      hide Live, Quiescent, Traced, Atomic, Serves, Listed, FileAt, Answer, Leaves, Overlong, Table, Represents, Held;
      op := Nothing();
      if !initialized {
        return InvalidState, op;
      }
      if !writable {
        return ReadOnly, op;
      }
      StartWatch();
      status, op := SaveWatched(where, bytes, append);
    }

    method SaveWatched(where: Locator, bytes: seq<Byte>, append: bool) returns (status: Status, ghost op: Op)
      requires Idle() && initialized && sync.cache.device.exposed == iset{Durable()} && Reachable(where)
      requires Traced(Nothing())
      modifies this`initialized, this`dirty, this`claims, fat, chain, oldChain, sync, sync.cache`entries
      modifies sync.cache`useClock, sync.cache`logical, sync.cache`currentGeneration
      modifies sync.cache.device`data, sync.cache.device`maybe, sync.cache.device`exposed, sync.cache.device.log
      ensures Answered(if append then Appending(where, bytes) else Replacing(where, bytes), status, op)
    {
      hide Leaves, Represents, Held;
      hide LocatedFile, SaveAnswer;
      hide Live, Quiescent, Traced, Atomic, Guarded, OnTheWay, DirsClosed, Stands, Within, Means, Answers, Targets;
      hide Aimed, FileAt, PairAt, Serves, SavedIn;
      op := Nothing();
      QuiescentFacts(v, Durable(), Logical(), fat[..], claims);
      var located := LocateFile(where);
      if located.Failure? {
        return located.error, op;
      }
      AnswersInTable(v, Durable(), Logical(), fat[..], claims, where, located.value);
      status, op := SaveFound(located.value, bytes, append);
      if Means(op, located.value) {
        FoundServes(op, where, located.value);
      }
    }

    method SaveFound(found: Found, bytes: seq<Byte>, append: bool) returns (status: Status, ghost op: Op)
      requires Idle() && initialized && sync.cache.device.exposed == iset{Durable()}
      requires v.IsPair(PairSlot(found)) && OnTheWay(v, Logical(), PairSlot(found))
      requires PairAt(v, Logical(), PairSlot(found)) == Some(found.entry.primary)
      modifies this`initialized, this`dirty, this`claims, fat, chain, oldChain, sync, sync.cache`entries
      modifies sync.cache`useClock, sync.cache`logical, sync.cache`currentGeneration
      modifies sync.cache.device`data, sync.cache.device`maybe, sync.cache.device`exposed, sync.cache.device.log
      ensures Idle() && Traced(op)
      ensures initialized || sync.Blamed(status)
      ensures status == SaveAnswer(v, old(fat[..]), found.entry.primary, bytes, append) || sync.Blamed(status)
      ensures old(Settled()) && !status.FromBelow() ==> Settled()
      ensures old(Settled()) && status == Ok ==> Leaves(op, Durable())
      ensures status != Ok && !status.FromBelow() ==>
              sync.cache.device.exposed == iset{op.start} && Logical() == old(Logical()) && fat[..] == old(fat[..])
      ensures op.Valid() && op.v == v && op.start == old(Durable())
      ensures || (Means(op, found) && op.next == Saved(FileAt(v, op.start, op.target), bytes, append))
              || (status != Ok && sync.cache.device.exposed == iset{op.start} && Logical() == old(Logical()))
      ensures status == Ok ==>
              && initialized && Durable() == Logical() && FileAt(v, Durable(), op.target) == op.next
              && SavedIn(v, old(Logical()), Logical(), op.target)
    {
      hide FileChain, HasClusters, Marked, Leaves, SyncLayer.Blamed, Represents, Held;
      hide Live, Quiescent, Traced, Atomic, OnTheWay, PairAt, Pair, IsChain, FileAt, SavedIn, Aimed;
      var p, at := found.entry.primary, PairSlot(found);
      op := Op(v, Durable(), at, NoFile);
      Begin(op);
      var oldCount;
      status, oldCount := CollectChain(p, oldChain);
      if status.Failed() {
        return;
      }
      var newSize := if append then p.fileSize + |bytes| else |bytes|;
      if newSize > 0xffff_ffff || newSize > MAX_CLUSTERS * CLUSTER_BYTES {
        return NoSpace, op;
      }
      var newCount := (newSize + CLUSTER_BYTES - 1) / CLUSTER_BYTES;
      status, op := SaveSized(op, at, p, oldCount, newSize, newCount, bytes, append);
    }

    /** The new size is in bounds: allocate, write, commit, and give back. */
    method SaveSized(ghost found: Op, at: Slot, p: Primary, oldCount: nat, newSize: nat, newCount: nat,
                     bytes: seq<Byte>, append: bool)
      returns (status: Status, ghost op: Op)
      requires InOp(found) && initialized && found.start == Durable() && sync.cache.device.exposed == iset{Durable()}
      requires Quiescent(v, Durable(), Logical(), fat[..], claims) && OnTheWay(v, Logical(), found.target)
      requires PairAt(v, Durable(), found.target) == PairAt(v, Logical(), found.target) == Some(p)
      requires oldCount <= MAX_CLUSTERS && at == found.target
      requires if p.fileSize == 0 then oldCount == 0
               else IsChain(fat[..], g.Entries(), p.firstCluster, oldChain[..oldCount])
      requires newSize == (if append then p.fileSize + |bytes| else |bytes|)
      requires newCount == (newSize + CLUSTER_BYTES - 1) / CLUSTER_BYTES
      requires newSize <= 0xffff_ffff && newSize <= MAX_CLUSTERS * CLUSTER_BYTES
      modifies this`initialized, this`dirty, this`claims, fat, chain, oldChain, sync, sync.cache`entries
      modifies sync.cache`useClock, sync.cache`logical, sync.cache`currentGeneration
      modifies sync.cache.device`data, sync.cache.device`maybe, sync.cache.device`exposed, sync.cache.device.log
      ensures Idle() && Traced(op)
      ensures initialized || sync.Blamed(status)
      ensures sync.Blamed(status) || status == if HasClusters(v, old(fat[..]), newCount) then Ok else NoSpace
      ensures old(Settled()) && !status.FromBelow() ==> Settled()
      ensures old(Settled()) && status == Ok ==> Leaves(op, Durable())
      ensures status != Ok && !status.FromBelow() ==>
              sync.cache.device.exposed == iset{op.start} && Logical() == old(Logical()) && fat[..] == old(fat[..])
      ensures op.Valid() && op.v == v && op.start == old(Durable()) && op.target == at
              && Saves(op, p.name, bytes, append)
      ensures status == Ok ==>
              && initialized && Durable() == Logical() && FileAt(v, Durable(), at) == op.next
              && SavedIn(v, old(Logical()), Logical(), at)
    {
      hide Marked, Swapped, Published, Leaves, Backs, HasClusters, Aimed, Represents, Held;
      hide Live, Quiescent, Traced, Atomic, OnTheWay, Stands, PairAt, Pair, IsChain, FileAt, SavedIn, RecordsChanged;
      hide Encodable, CompanionBytes, PrimaryBytes;
      dirty := [];
      ghost var f, kept;
      op, f, kept := AimAt(found, p, oldChain[..oldCount], bytes, append);
      ghost var first, before := Logical(), fat[..];
      MarkedIsTable(v, first, before);
      StandsBacks(op, first, before, claims, f);
      ghost var p';
      status, p' := SaveAt(op, f, at, p, oldCount, newSize, newCount, bytes, append, kept);
      if !status.Failed() {
        MarkedIsTable(v, Logical(), fat[..]);
        if old(Settled()) {
          PublishedLeaves(op, Durable(), before, fat[..], claims, p', f.chain, chain[..newCount]);
        }
        SaveListed(v, first, Logical(), at, p, p');
      }
    }

    /** The file as it stands, and the file that the save aims for. */
    ghost method AimAt(found: Op, p: Primary, oldClusters: seq<u32>, bytes: seq<Byte>, append: bool)
      returns (op: Op, f: OldFile, kept: seq<Byte>)
      requires InOp(found) && initialized && found.start == Durable() && sync.cache.device.exposed == iset{Durable()}
      requires Quiescent(v, Durable(), Logical(), fat[..], claims)
      requires OnTheWay(v, Logical(), found.target)
      requires PairAt(v, Durable(), found.target) == PairAt(v, Logical(), found.target) == Some(p)
      requires if p.fileSize == 0 then oldClusters == [] else IsChain(fat[..], g.Entries(), p.firstCluster, oldClusters)
      ensures InOp(op) && op.start == Durable() && op.target == found.target
      ensures Stands(op, Logical(), fat[..], claims, f) && f.primary == p && f.chain == oldClusters
      ensures Aimed(op) && |f.content| == p.fileSize && kept == if append then f.content else []
      ensures FileAt(v, op.start, op.target) == File(p.name, f.content) && op.next == File(p.name, kept + bytes)
    {
      hide Live, Quiescent, Traced, Atomic, OnTheWay, Stands, Represents, Held;
      f := OldFileFound(found, Logical(), fat[..], claims, p, oldClusters);
      StandsCarries(found, Logical(), fat[..], claims, f);
      kept := if append then f.content else [];
      op := found.(next := File(p.name, kept + bytes));
      StandsWhateverNext(found, op, Logical(), fat[..], claims, f);
      Begin(op);
    }

    method SaveAt(ghost op: Op, ghost f: OldFile, at: Slot, p: Primary, oldCount: nat, newSize: nat, newCount: nat,
                  bytes: seq<Byte>, append: bool, ghost kept: seq<Byte>)
      returns (status: Status, ghost p': Primary)
      requires InOp(op) && initialized && Quiescent(op.v, Durable(), Logical(), fat[..], claims)
      requires at == op.target && op.next == File(p.name, kept + bytes) && kept == (if append then f.content else [])
      requires Stands(op, Logical(), fat[..], claims, f) && f.primary == p && dirty == []
      requires oldCount <= MAX_CLUSTERS && f.chain == oldChain[..oldCount]
      requires newSize == |kept| + |bytes| <= 0xffff_ffff && newSize <= MAX_CLUSTERS * CLUSTER_BYTES
      requires newCount == (newSize + CLUSTER_BYTES - 1) / CLUSTER_BYTES
      modifies this`initialized, this`dirty, this`claims, fat, chain, oldChain, sync, sync.cache`entries
      modifies sync.cache`useClock, sync.cache`logical, sync.cache`currentGeneration
      modifies sync.cache.device`data, sync.cache.device`maybe, sync.cache.device`exposed, sync.cache.device.log
      ensures Idle() && Traced(op)
      ensures initialized || sync.Blamed(status)
      ensures || sync.Blamed(status)
              || status == if HasClusters(v, old(fat[..]), newCount) then Ok else NoSpace
      ensures status == Ok ==>
              && Published(op, Durable(), fat[..], claims, p', chain[..newCount])
              && Swapped(old(fat[..]), fat[..], f.chain, chain[..newCount])
      ensures status == Ok && old(Tracked()) ==> dirty == [] && Tracked()
      ensures status == NoSpace ==>
              && Durable() == old(Durable()) && Logical() == old(Logical()) && fat[..] == old(fat[..]) && dirty == []
              && sync.cache.device.exposed == old(sync.cache.device.exposed)
      ensures status == Ok ==>
              && initialized && Durable() == Logical() && FileAt(v, Durable(), at) == op.next
              && Encodable(p') && p'.attributes == ATTRIBUTE_REGULAR && p'.name == p.name
              && RecordsChanged(v, old(Logical()), Logical(), at, CompanionBytes(p'.name, true), PrimaryBytes(p'))
    {
      hide Marked, Without, Swapped, Published, Represents, Held;
      hide Live, Quiescent, Traced, Stands, Reserved, Carries, RecordsChanged, SameRecords, CompanionBytes;
      hide PrimaryBytes, Encodable;
      p' := p;
      ghost var first := Logical();
      ghost var table := fat[..];
      status := AllocateChain(op, newCount);
      if status.Failed() {
        return;
      }
      AllocationLeavesOldFile(op, Logical(), table, fat[..], claims, dirty, f, chain[..newCount]);
      ghost var linked := fat[..];
      status := WriteContent(op, f, p.fileSize, oldCount, newCount, bytes, append, kept);
      if status.Failed() {
        return;
      }
      ghost var written := Logical();
      status, p' := SwapFile(op, f, at, p, oldCount, newSize, newCount, kept + bytes);
      if !status.Failed() {
        SwapsByAllocation(table, linked, fat[..], f.chain, chain[..newCount]);
        SameRecordsItself(v, Logical());
        RecordsChangedFrame(v, first, written, Logical(), Logical(), at, CompanionBytes(p'.name, true),
                            PrimaryBytes(p'));
      }
    }

    /** The new content is durable: commit it and give the old clusters back. */
    method SwapFile(ghost op: Op, ghost f: OldFile, at: Slot, p: Primary, oldCount: nat, newSize: nat, newCount: nat,
                    ghost content: seq<Byte>)
      returns (status: Status, ghost committed: Primary)
      requires InOp(op) && initialized && Quiescent(op.v, Durable(), Logical(), fat[..], claims)
      requires at == op.target && op.next == File(p.name, content) && newSize == |content| <= 0xffff_ffff
      requires Stands(op, Logical(), fat[..], claims, f) && f.primary == p
      requires oldCount <= MAX_CLUSTERS && f.chain == oldChain[..oldCount]
      requires newCount <= MAX_CLUSTERS && newCount == (newSize + CLUSTER_BYTES - 1) / CLUSTER_BYTES
      requires Reserved(op.v, fat[..], claims, dirty, chain[..newCount]) && (newCount == 0 || dirty != [])
      requires Carries(Logical(), op.v.g, chain[..newCount], content, newCount)
      modifies this`initialized, this`dirty, this`claims, fat, oldChain, sync, sync.cache`entries
      modifies sync.cache`useClock, sync.cache`logical, sync.cache`currentGeneration
      modifies sync.cache.device`data, sync.cache.device`maybe, sync.cache.device`exposed, sync.cache.device.log
      ensures Idle() && Traced(op)
      ensures status == Ok || sync.Blamed(status)
      ensures status == Ok ==>
              Published(op, Durable(), fat[..], claims, committed, chain[..newCount])
                && Without(old(fat[..]), fat[..], f.chain)
      ensures status == Ok && old(Tracked()) ==> dirty == [] && Tracked()
      ensures status == Ok ==>
              && initialized && Durable() == Logical() && FileAt(v, Durable(), at) == op.next
              && Encodable(committed) && committed.attributes == ATTRIBUTE_REGULAR && committed.name == p.name
              && RecordsChanged(v, old(Logical()), Logical(), at, CompanionBytes(committed.name, true),
                                PrimaryBytes(committed))
    {
      hide IsChain, SyncLayer.Blamed, Represents, Held;
      hide Marked, Freed, Without;
      hide Live, Quiescent, Traced, Stands, Reserved, Carries, Published, Unclaimed, Encodable, Backs, FileOf;
      hide OldStillStands, ChainReady, SameRecords, CompanionBytes, PrimaryBytes;
      ghost var newChain, before := chain[..newCount], claims;
      ghost var first := Logical();
      var p' := Primary(p.name, p.attributes, if newCount == 0 then 0 else chain[0], newSize);
      committed := p';
      SaveReady(op, Logical(), fat[..], claims, dirty, f, newChain, content);
      ReservedFacts(op, Logical(), fat[..], claims, dirty, f, newChain);
      var oldFirst := if oldCount == 0 then 0 else oldChain[0];
      assert oldFirst != 0 ==> f.primary.fileSize != 0 && oldFirst == f.primary.firstCluster by {
        assert oldCount > 0 ==> f.chain[0] == oldChain[0];
      }
      status := PublishFile(op, at, p', newChain);
      if status.Failed() {
        return;
      }
      SettleClaim(op, f, before, p', newChain);
      ghost var published := Logical();
      ChainOfFile(fat[..], g, f.primary, f.chain);
      assert oldFirst == 0 ==> f.chain == [] by {
        assert oldCount > 0 ==> f.chain[0] == oldChain[0];
      }
      if oldFirst != 0 {
        ChainIs(fat[..], g.Entries(), oldFirst, f.chain);
      }
      ghost var table := fat[..];
      status := DropOld(op, at, oldFirst, p', newChain);
      if !status.Failed() {
        FreedIsWithout(table, fat[..], g.Entries(), oldFirst, f.chain);
        SameRecordsItself(v, first);
        RecordsChangedFrame(v, first, first, published, Logical(), at, CompanionBytes(p'.name, true), PrimaryBytes(p'));
      }
    }

    /** What the committed record does not need is nobody's any more. */
    ghost method SettleClaim(op: Op, f: OldFile, before: Claims, p: Primary, newChain: seq<u32>)
      requires InOp(op) && initialized && Durable() == Logical()
      requires Encodable(p) && p.attributes == ATTRIBUTE_REGULAR
               && Published(op, Durable(), fat[..], claims, p, newChain)
      requires RecordAt(Durable(), v.g, Second(op.target)) == PrimaryBytes(p)
      requires claims == before[Second(op.target) := ClaimOf(before, Second(op.target)) + ClusterSet(newChain)]
      requires ClusterSet(f.chain) <= ClaimOf(before, Second(op.target)) && Backs(fat[..], v.g, f.primary, f.chain)
      requires forall i :: 0 <= i < |newChain| ==> !Claimed(before, newChain[i])
      modifies this`claims
      ensures InOp(op) && Published(op, Durable(), fat[..], claims, p, newChain)
      ensures f.primary.fileSize != 0 ==> Unclaimed(v, fat[..], claims, f.primary.firstCluster)
    {
      hide Live, Quiescent, Traced, Unclaimed, Encodable, PrimaryBytes, Published, Backs, Represents, Held;
      ClaimSettles(op, Durable(), fat[..], before, claims, f, p, newChain);
      claims := claims[Second(op.target) := ClusterSet(newChain)];
    }

    /** The last step of a save: the clusters that the committed file no longer needs go back. */
    method DropOld(ghost op: Op, at: Slot, firstCluster: u32, ghost p: Primary, ghost newChain: seq<u32>)
      returns (status: Status)
      requires InOp(op) && initialized && Durable() == Logical() && at == op.target
      requires Published(op, Durable(), fat[..], claims, p, newChain)
      requires firstCluster != 0 ==> Unclaimed(v, fat[..], claims, firstCluster)
      modifies this`initialized, this`dirty, fat, oldChain, sync, sync.cache`entries, sync.cache`useClock
      modifies sync.cache`logical, sync.cache`currentGeneration
      modifies sync.cache.device`data, sync.cache.device`maybe, sync.cache.device`exposed, sync.cache.device.log
      ensures Idle() && Traced(op)
      ensures || status == Ok || sync.Blamed(status)
              || (firstCluster != 0 && ChainFrom(old(fat[..]), g.Entries(), firstCluster).Failure?)
      ensures status == Ok ==>
              Published(op, Durable(), fat[..], claims, p, newChain)
                && Freed(old(fat[..]), fat[..], g.Entries(), firstCluster)
      ensures status == Ok && old(dirty) == [] && old(Tracked()) ==> dirty == [] && Tracked()
      ensures status == Ok ==>
              && initialized && Durable() == Logical() && FileAt(v, Durable(), at) == op.next
              && SameRecords(v, old(Logical()), Logical())
    {
      hide Marked, Freed, SyncLayer.Blamed, Represents, Held;
      hide Live, Quiescent, Traced, Published, Unclaimed;
      ghost var disk, table := Durable(), fat[..];
      status := ReleaseChain(op, firstCluster);
      if !status.Failed() {
        PublishedKept(op, disk, Durable(), table, fat[..], claims, p, newChain);
        PublishedShows(op, Durable(), fat[..], claims, p, newChain);
      }
    }

    // ----- deleting -------------------------------------------------------------------------------

    /** Removes a file; its clusters are free again once the directory no longer shows it. */
    method Delete(where: Locator) returns (status: Status, ghost op: Op)
      requires Idle() && Reachable(where)
      modifies this`initialized, this`dirty, this`claims, fat, chain, oldChain, sync, sync.cache`entries
      modifies sync.cache`useClock, sync.cache`logical, sync.cache`currentGeneration
      modifies sync.cache.device`data, sync.cache.device`maybe, sync.cache.device`exposed, sync.cache.device`past
      modifies sync.cache.device.log
      ensures Idle() && op.Valid() && op.v == v && op.start == old(Durable())
      ensures if old(initialized) && writable
              then Answered(Removing(where), status, op) && sync.cache.device.past == old(sync.cache.device.History())
              else Declined(status)
    {
      hide Live, Quiescent, Traced, Atomic, Serves, Listed, FileAt, Answer, Leaves, Overlong, Table, Represents, Held;
      op := Nothing();
      if !initialized {
        return InvalidState, op;
      }
      if !writable {
        return ReadOnly, op;
      }
      StartWatch();
      status, op := DeleteWatched(where);
    }

    method DeleteWatched(where: Locator) returns (status: Status, ghost op: Op)
      requires Idle() && initialized && sync.cache.device.exposed == iset{Durable()} && Reachable(where)
      requires Traced(Nothing())
      modifies this`initialized, this`dirty, this`claims, fat, chain, oldChain, sync, sync.cache`entries
      modifies sync.cache`useClock, sync.cache`logical, sync.cache`currentGeneration
      modifies sync.cache.device`data, sync.cache.device`maybe, sync.cache.device`exposed, sync.cache.device.log
      ensures Answered(Removing(where), status, op)
    {
      hide Leaves, Overlong, Backs, Represents, Held;
      hide LocatedFile, DeleteAnswer;
      hide Live, Quiescent, Traced, Atomic, Guarded, OnTheWay, DirsClosed, Within, Means, Answers, Targets, Aimed;
      hide FileAt, PairAt, Serves, DeletedIn;
      op := Nothing();
      QuiescentFacts(v, Durable(), Logical(), fat[..], claims);
      var located := LocateFile(where);
      if located.Failure? {
        return located.error, op;
      }
      AnswersInTable(v, Durable(), Logical(), fat[..], claims, where, located.value);
      ghost var held;
      status, op, held := DeleteFound(located.value);
      if old(Settled()) && status.Failed() && !status.FromBelow() {
        DeletedTooLong(op, old(fat[..]), located.value.entry.primary, held);
      }
      if Means(op, located.value) {
        FoundServes(op, where, located.value);
      }
    }

    method DeleteFound(found: Found) returns (status: Status, ghost op: Op, ghost held: seq<u32>)
      requires Idle() && initialized && sync.cache.device.exposed == iset{Durable()}
      requires v.IsPair(PairSlot(found)) && OnTheWay(v, Logical(), PairSlot(found))
      requires PairAt(v, Logical(), PairSlot(found)) == Some(found.entry.primary)
      modifies this`initialized, this`dirty, this`claims, fat, oldChain, sync, sync.cache`entries
      modifies sync.cache`useClock, sync.cache`logical, sync.cache`currentGeneration
      modifies sync.cache.device`data, sync.cache.device`maybe, sync.cache.device`exposed, sync.cache.device.log
      ensures Idle() && Traced(op)
      ensures initialized || sync.Blamed(status)
      ensures status == DeleteAnswer(v, old(fat[..]), found.entry.primary) || sync.Blamed(status)
      ensures old(Settled()) && !status.FromBelow() ==> Settled()
      ensures old(Settled()) && status == Ok ==> Leaves(op, Durable())
      ensures Backs(old(fat[..]), v.g, found.entry.primary, held)
      ensures op.Valid() && op.v == v && op.start == old(Durable()) && op.next == NoFile && Means(op, found)
      ensures PairAt(v, op.start, op.target) == Some(found.entry.primary)
      ensures status == Ok ==>
              && initialized && Durable() == Logical() && FileAt(v, Durable(), op.target) == NoFile
              && DeletedIn(v, old(Logical()), Logical(), op.target)
    {
      hide FilePrimary, RecordAt, Encodable, Carries, DirsClosed, Table, Represents, Held;
      hide Marked, Leaves, Freed, Without, Backs, IsChain, ChainFrom;
      hide Live, Quiescent, Traced, Atomic, OnTheWay, Stands, PairAt, FileAt, Unclaimed, RecordsChanged, SameRecords;
      hide DeletedIn, Aimed;
      ghost var first := Logical();
      var p, at := found.entry.primary, PairSlot(found);
      op := Op(v, Durable(), at, NoFile);
      Begin(op);
      MarkedIsTable(v, first, fat[..]);
      ghost var table := fat[..];
      ghost var f := OldFileExists(op, Logical(), fat[..], claims, p);
      held := f.chain;
      status := EraseRecords(op, f, at, p.name);
      if status.Failed() {
        return;
      }
      ClaimEnds(op, Durable(), fat[..], claims, f);
      claims := claims[Second(at) := ClusterSet([])];
      ghost var disk := Durable();
      ChainOfFile(table, g, p, f.chain);
      status := ReleaseChain(op, p.firstCluster);
      MarkedIsTable(v, Logical(), fat[..]);
      if !status.Failed() {
        if old(Settled()) {
          FreedIsWithout(table, fat[..], g.Entries(), p.firstCluster, f.chain);
          ErasedIsNoPair(v, first, disk, Durable(), at);
          ErasedLeaves(op, Durable(), table, fat[..], f.chain);
        }
        ErasedShowsNothing(v, first, disk, Durable(), at);
        SameRecordsItself(v, first);
        RecordsChangedFrame(v, first, first, disk, Durable(), at, DELETED_RECORD, DELETED_RECORD);
        DeleteListed(v, first, Durable(), at, p);
      }
    }

    method EraseRecords(ghost op: Op, ghost f: OldFile, at: Slot, name: Name) returns (status: Status)
      requires InOp(op) && initialized && at == op.target && Quiescent(op.v, Durable(), Logical(), fat[..], claims)
      requires Stands(op, Logical(), fat[..], claims, f) && f.primary.name == name
      modifies this`initialized, sync, sync.cache`entries, sync.cache`useClock
      modifies sync.cache`logical, sync.cache`currentGeneration
      modifies sync.cache.device`data, sync.cache.device`maybe, sync.cache.device`exposed, sync.cache.device.log
      ensures InOp(op)
      ensures status == Ok || sync.Blamed(status)
      ensures status == Ok && old(Tracked()) ==> Tracked()
      ensures status == Ok ==>
              && initialized && Durable() == Logical()
              && RecordsChanged(v, old(Logical()), Logical(), at, DELETED_RECORD, DELETED_RECORD)
              && RecordAt(Durable(), v.g, Second(at)) == DELETED_RECORD
      ensures status != Ok && initialized ==> Quiescent(op.v, Durable(), Logical(), fat[..], claims)
    {
      hide Marked, RecordAt, Atomic, FileAt, PairAt, DirsClosed, Table, SyncLayer.Blamed, Represents, Held;
      hide Live, Quiescent, Traced, Stands, WithRecordAt, FilePrimary, RecordsChanged, CompanionBytes;
      ghost var first := Logical();
      StandsRecord(op, first, fat[..], claims, f);
      status := Uncommit(op, at, name);
      if status.Failed() {
        return;
      }
      RecordLanded(v, first, at, CompanionBytes(name, false));
      status := EraseCompanion(op, at, name);
      if status.Failed() {
        return;
      }
      status := ErasePrimary(op, at, name);
      if status.Failed() {
        return;
      }
      EraseEffect(v, first, at, CompanionBytes(name, false));
      if Marked(v, first, fat[..], dirty) {
        MarkedErased(v, first, at, CompanionBytes(name, false), fat[..], dirty);
      }
      status := Barrier(op);
    }

    method EraseCompanion(ghost op: Op, at: Slot, name: Name) returns (status: Status)
      requires InOp(op) && initialized && at == op.target && Durable() == Logical()
      requires RecordAt(Durable(), v.g, at) == CompanionBytes(name, false)
      requires FilePrimary(RecordAt(Durable(), v.g, Second(at))).Some?
      modifies sync`dirtyComponents, sync`lastResult, sync.cache`entries, sync.cache`useClock, sync.cache`logical
      modifies sync.cache.device.log
      ensures InOp(op)
      ensures status == Ok || sync.Blamed(status)
      ensures status == Ok ==> Logical() == WithRecordAt(v, Durable(), at, DELETED_RECORD)
      ensures status != Ok ==> Quiescent(op.v, Durable(), Logical(), fat[..], claims)
    {
      hide Live, Quiescent, Traced, WithRecordAt, RecordAt, FilePrimary, CompanionBytes, SyncLayer.Blamed;
      hide Represents, Held;
      DeletedAllowed(op, Durable(), fat[..]);
      status := WriteCompanion(op, at, DELETED_RECORD);
      if status.Failed() {
        LiveEqual(op, Durable(), fat[..], claims);
      }
    }

    method ErasePrimary(ghost op: Op, at: Slot, name: Name) returns (status: Status)
      requires InOp(op) && initialized && at == op.target && Logical() == WithRecordAt(v, Durable(), at, DELETED_RECORD)
      requires RecordAt(Durable(), v.g, at) == CompanionBytes(name, false)
      requires FilePrimary(RecordAt(Durable(), v.g, Second(at))).Some?
      modifies sync`dirtyComponents, sync`lastResult, sync.cache`entries, sync.cache`useClock, sync.cache`logical
      modifies sync.cache.device.log
      ensures InOp(op)
      ensures status == Ok || sync.Blamed(status)
      ensures status == Ok ==>
              Logical() == WithRecordAt(v, old(Logical()), Second(at), DELETED_RECORD)
      ensures status != Ok ==> Quiescent(op.v, Durable(), Logical(), fat[..], claims)
    {
      hide Live, Quiescent, Traced, WithRecordAt, RecordAt, FilePrimary, SyncLayer.Blamed, Represents, Held;
      ghost var logical := Logical();
      DeletedAllowed(op, Durable(), fat[..]);
      RecordLanded(v, Durable(), at, DELETED_RECORD);
      assert CompanionBytes(name, false)[0] == COMPANION_TYPE;
      status := WritePrimary(op, Second(at), DELETED_RECORD);
      if status.Failed() {
        StoppedInDelete(op, Durable(), logical, fat[..], claims, name);
      }
    }

    // ----- renaming -------------------------------------------------------------------------------

    /** Gives a file a new name in the directory cluster that it lies in. */
    method Rename(where: Locator, name: Name) returns (status: Status, ghost op: Op)
      requires Idle() && Reachable(where) && ValidStoredName(name)
      modifies this`initialized, this`dirty, this`claims, chain, sync, sync.cache`entries
      modifies sync.cache`useClock, sync.cache`logical, sync.cache`currentGeneration
      modifies sync.cache.device`data, sync.cache.device`maybe, sync.cache.device`exposed, sync.cache.device`past
      modifies sync.cache.device.log
      ensures Idle() && op.Valid() && op.v == v && op.start == old(Durable())
      ensures if old(initialized) && writable
              then Answered(Renaming(where, name), status, op)
                   && sync.cache.device.past == old(sync.cache.device.History())
              else Declined(status)
    {
      hide Live, Quiescent, Traced, Atomic, Serves, Listed, FileAt, Answer, Leaves, Overlong, Table, Represents, Held;
      op := Nothing();
      if !initialized {
        return InvalidState, op;
      }
      if !writable {
        return ReadOnly, op;
      }
      StartWatch();
      status, op := RenameWatched(where, name);
    }

    method RenameWatched(where: Locator, name: Name) returns (status: Status, ghost op: Op)
      requires Idle() && initialized && sync.cache.device.exposed == iset{Durable()} && Reachable(where)
               && ValidStoredName(name)
      requires Traced(Nothing())
      modifies this`initialized, this`dirty, this`claims, chain, sync, sync.cache`entries
      modifies sync.cache`useClock, sync.cache`logical, sync.cache`currentGeneration
      modifies sync.cache.device`data, sync.cache.device`maybe, sync.cache.device`exposed, sync.cache.device.log
      ensures Answered(Renaming(where, name), status, op)
    {
      hide Leaves, Represents, Held;
      hide LocatedFile, RenameAnswer;
      hide Live, Quiescent, Traced, Atomic, Guarded, OnTheWay, DirsClosed, Within, Means, Answers, Targets, Aimed;
      hide FileAt, PairAt, Serves, Listed, RenamedIn;
      op := Nothing();
      QuiescentFacts(v, Durable(), Logical(), fat[..], claims);
      var located := LocateFile(where);
      if located.Failure? {
        return located.error, op;
      }
      AnswersInTable(v, Durable(), Logical(), fat[..], claims, where, located.value);
      status, op := RenameFound(located.value, name);
      IsListed(op, old(Logical()), Logical());
      if Means(op, located.value) {
        FoundServes(op, where, located.value);
      }
    }

    /** Whether the new name is free; it may also be the file's own. */
    method FindNewName(found: Found, name: Name) returns (status: Status, own: bool, ghost clusters: seq<u32>)
      requires Wired() && DirsClosed(v, fat[..]) && found.cluster in v.dirs
      modifies chain, sync.cache`entries, sync.cache`useClock, sync.cache.device.log
      ensures Wired()
      ensures status == RenameAnswer(v, fat[..], Logical(), found, name) || sync.Blamed(status)
      ensures own ==> status == Ok && found.entry.primary.name == name
      ensures status == Ok && !own ==>
              && IsChain(fat[..], g.Entries(), found.cluster, clusters)
              && forall i :: 0 <= i < |clusters| ==> Misses(v, Logical(), clusters[i], BaseName(name, Some(found)))
    {
      hide Searched, DirsClosed, IsChain, Misses, Shown, Hit, Within, SyncLayer.Blamed, Represents, Held;
      own := false;
      var taken;
      taken, clusters := Search(found.cluster, WholeName(name));
      if taken.Failure? {
        return taken.error, false, clusters;
      }
      if taken.value.Some? {
        own := found.entry.primary.name == name;
        return if own then Ok else AlreadyExists, own, clusters;
      }
      taken, clusters := Search(found.cluster, BaseName(name, Some(found)));
      status := if taken.Failure? then taken.error else if taken.value.Some? then AlreadyExists else Ok;
    }

    method RenameFound(found: Found, name: Name) returns (status: Status, ghost op: Op)
      requires Idle() && initialized && sync.cache.device.exposed == iset{Durable()} && ValidStoredName(name)
      requires v.IsPair(PairSlot(found)) && OnTheWay(v, Logical(), PairSlot(found))
      requires PairAt(v, Logical(), PairSlot(found)) == Some(found.entry.primary)
      requires found.entry.primarySlot == PairSlot(found).index + 1
      modifies this`initialized, this`dirty, this`claims, chain, sync, sync.cache`entries
      modifies sync.cache`useClock, sync.cache`logical, sync.cache`currentGeneration
      modifies sync.cache.device`data, sync.cache.device`maybe, sync.cache.device`exposed, sync.cache.device.log
      ensures Idle() && Traced(op)
      ensures initialized || sync.Blamed(status)
      ensures status == RenameAnswer(v, old(fat[..]), old(Logical()), found, name) || sync.Blamed(status)
      ensures old(Settled()) && !status.FromBelow() ==> Settled()
      ensures old(Settled()) && status == Ok ==> Leaves(op, Durable())
      ensures status != Ok && !status.FromBelow() ==>
              sync.cache.device.exposed == iset{op.start} && Logical() == old(Logical())
      ensures op.Valid() && op.v == v && op.start == old(Durable()) && Means(op, found)
      ensures op.next == File(name, FileAt(v, op.start, op.target).content)
      ensures status == Ok ==>
              && initialized && FileAt(v, Durable(), op.target) == op.next
              && ((FileAt(v, op.start, op.target).File? && FileAt(v, op.start, op.target).name == name
                   && Logical() == old(Logical()))
                  || RenamedIn(v, Table(op.start, g), old(Logical()), Logical(), op.target))
    {
      hide RecordAt, FilePrimary, Carries, DirSlots, Represents, Held;
      hide Marked, Leaves, Published, Backs, RenameAnswer;
      hide Live, Quiescent, Traced, Atomic, OnTheWay, Stands, PairAt, FileAt, DirsClosed, Misses, Shown, Guarded;
      hide RenamedIn;
      hide RecordsChanged, CompanionBytes, PrimaryBytes, Encodable, Aimed, IsChain, Scans, Hit, Table;
      var p, at := found.entry.primary, PairSlot(found);
      op := Op(v, Durable(), at, NoFile);
      Begin(op);
      ghost var f := OldFileExists(op, Logical(), fat[..], claims, p);
      StandsWhateverNext(op, op.(next := File(name, f.content)), Logical(), fat[..], claims, f);
      op := op.(next := File(name, f.content));
      Begin(op);
      QuiescentFacts(v, Durable(), Logical(), fat[..], claims);
      var own;
      ghost var clusters;
      status, own, clusters := FindNewName(found, name);
      if status.Failed() {
        return;
      }
      if own {
        NothingDone(op);
        return;
      }
      ghost var first, held := Logical(), claims;
      MarkedIsTable(v, first, fat[..]);
      StandsBacks(op, first, fat[..], claims, f);
      status := RenameAt(op, f, at, p, name);
      if !status.Failed() {
        MarkedIsTable(v, Logical(), fat[..]);
        if old(Settled()) {
          RenamedLeaves(op, Durable(), fat[..], claims, p.(name := name), f.chain);
        }
        DirChainInTable(v, op.start, first, fat[..], held, found.cluster, clusters);
        RenameListed(v, Table(op.start, g), clusters, first, Logical(), at, found, p.(name := name));
      }
    }

    method RenameAt(ghost op: Op, ghost f: OldFile, at: Slot, p: Primary, name: Name) returns (status: Status)
      requires InOp(op) && initialized && at == op.target && Quiescent(op.v, Durable(), Logical(), fat[..], claims)
      requires Stands(op, Logical(), fat[..], claims, f) && f.primary == p
      requires ValidStoredName(name) && op.next == File(name, f.content)
      modifies this`initialized, this`dirty, this`claims, sync, sync.cache`entries, sync.cache`useClock
      modifies sync.cache`logical, sync.cache`currentGeneration
      modifies sync.cache.device`data, sync.cache.device`maybe, sync.cache.device`exposed, sync.cache.device.log
      ensures Idle() && Traced(op)
      ensures status == Ok || sync.Blamed(status)
      ensures status == Ok ==>
              && Durable() == Logical() && dirty == []
              && Published(op, Durable(), fat[..], claims, p.(name := name), f.chain)
      ensures status == Ok && old(Tracked()) ==> Tracked()
      ensures status == Ok ==>
              && initialized && FileAt(v, Durable(), at) == op.next
              && Encodable(p.(name := name)) && p.attributes == ATTRIBUTE_REGULAR
              && RecordsChanged(v, old(Logical()), Logical(), at, CompanionBytes(name, true),
                                PrimaryBytes(p.(name := name)))
    {
      hide Marked, SyncLayer.Blamed, Represents, Held;
      hide Live, Quiescent, Traced, Stands, Published, Guarded, WithRecordAt, RecordsChanged, CompanionBytes;
      hide PrimaryBytes;
      hide Backs, ChainReady, FileOf, OldStillStands, Encodable;
      ghost var first := Logical();
      StandsRecord(op, first, fat[..], claims, f);
      status := Uncommit(op, at, p.name);
      if status.Failed() {
        return;
      }
      if Marked(v, first, fat[..], dirty) {
        MarkedRecord(v, first, at, CompanionBytes(p.name, false), fat[..], dirty);
      }
      LiveEqual(op, Durable(), fat[..], claims);
      QuiescentFacts(op.v, Durable(), Logical(), fat[..], claims);
      FenceLeavesOldFile(op, first, fat[..], claims, f, CompanionBytes(p.name, false));
      RenameReady(op, Logical(), fat[..], claims, dirty, f, name);
      status := PublishFile(op, at, p.(name := name), f.chain);
      if !status.Failed() {
        PublishedShows(op, Durable(), fat[..], claims, p.(name := name), f.chain);
        LiveEqual(op, Durable(), fat[..], claims);
        FencedChange(v, first, Logical(), at, CompanionBytes(p.name, false), CompanionBytes(name, true),
                     PrimaryBytes(p.(name := name)));
      }
    }

    // ----- reading --------------------------------------------------------------------------------

    /** The one answer that reading from `offset` on calls for, given what looking for the file came to. */
    ghost predicate ReadAnswer(located: Result<Found>, offset: nat, status: Status)
      reads this, sync, sync.cache, sync.cache.device, fat
      requires Wired()
    {
      match located
      case Failure(error) => status == error
      case Success(f) =>
        && v.IsPair(PairSlot(f)) && FileAt(v, Durable(), PairSlot(f)).File?
        && exists chain: seq<u32> ::
             && Backs(fat[..], g, f.entry.primary, chain)
             && status == if offset > |FileAt(v, Durable(), PairSlot(f)).content| then OutOfRange
                          else if |chain| <= 256 then Ok else NoSpace
    }

    /** The bytes of a file from `offset` on, as many as asked for and there are. */
    method ReadContent(where: Locator, offset: nat, capacity: nat)
      returns (status: Status, data: seq<Byte>, complete: bool, ghost at: Slot)
      requires Idle() && Reachable(where)
      modifies chain, sync.cache`entries, sync.cache`useClock, sync.cache.device.log
      ensures Idle()
      ensures !initialized ==> status == InvalidState
      ensures initialized ==>
              sync.Blamed(status) || ReadAnswer(LocatedFile(v, fat[..], Logical(), where), offset, status)
      ensures status == Ok ==> v.IsPair(at) && Targets(v, fat[..], where, at, FileAt(v, Durable(), at))
      ensures status == Ok ==>
              var content := FileAt(v, Durable(), at).content;
              && offset <= |content|
              && data == content[offset..if capacity < |content| - offset then offset + capacity else |content|]
              && (complete <==> offset + capacity >= |content|)
    {
      hide LocatedFile, Live, Quiescent, Guarded, OnTheWay, DirsClosed, Within, FileAt, PairAt, Backs, SyncLayer.Blamed;
      hide Represents, Held;
      data, complete, at := [], false, Slot(2, 0);
      if !initialized {
        return InvalidState, data, complete, at;
      }
      sync.cache.device.log.StartOver();
      QuiescentFacts(v, Durable(), Logical(), fat[..], claims);
      var located := LocateFile(where);
      if located.Failure? {
        return located.error, data, complete, at;
      }
      at := PairSlot(located.value);
      status, data, complete := ReadFound(located.value, offset, capacity);
    }

    method ReadFound(found: Found, offset: nat, capacity: nat)
      returns (status: Status, data: seq<Byte>, complete: bool)
      requires Idle() && initialized
      requires v.IsPair(PairSlot(found)) && OnTheWay(v, Logical(), PairSlot(found))
      requires PairAt(v, Logical(), PairSlot(found)) == Some(found.entry.primary)
      modifies chain, sync.cache`entries, sync.cache`useClock, sync.cache.device.log
      ensures Idle() && (sync.Blamed(status) || ReadAnswer(Success(found), offset, status))
      ensures var file := FileAt(v, Durable(), PairSlot(found));
        && file.File? && file.name == found.entry.primary.name
        && (status == Ok ==>
              && offset <= |file.content|
              && data == file.content[offset..if capacity < |file.content| - offset then offset + capacity
                                              else |file.content|]
              && (complete <==> offset + capacity >= |file.content|))
    {
      hide SyncLayer.Blamed, Represents, Held;
      hide FileChain, Live, Quiescent, Guarded, OnTheWay, DirsClosed, Stands, Carries, IsChain, FileAt, PairAt, Backs;
      data, complete := [], false;
      var p := found.entry.primary;
      ghost var op := Op(v, Durable(), PairSlot(found), NoFile);
      FoundIsSettled(op, Logical(), fat[..], claims);
      ghost var f := OldFileExists(op, Logical(), fat[..], claims, p);
      StandsCarries(op, Logical(), fat[..], claims, f);
      FileChainAnswers(v, fat[..], p, f.chain);
      if offset > p.fileSize {
        return OutOfRange, data, complete;
      }
      var count;
      status, count := CollectChain(p, chain);
      if status.Failed() {
        return;
      }
      status, data := ReadChain(f, p, count, offset, if capacity < p.fileSize - offset then capacity
                                else p.fileSize - offset);
      complete := offset + |data| == p.fileSize;
    }

    method ReadChain(ghost f: OldFile, p: Primary, count: nat, offset: nat, wanted: nat)
      returns (status: Status, data: seq<Byte>)
      requires Wired() && count <= MAX_CLUSTERS && f.chain == chain[..count]
      requires Carries(Logical(), g, f.chain, f.content, count) && |f.content| <= count * CLUSTER_BYTES
      requires offset + wanted <= |f.content|
      modifies sync.cache`entries, sync.cache`useClock, sync.cache.device.log
      ensures Wired() && (status == Ok ==> data == f.content[offset..offset + wanted])
      ensures status == Ok || sync.Blamed(status)
    {
      hide Carries, Flattened, SyncLayer.Blamed, Represents, Held;
      data := [];
      while |data| < wanted
        invariant Wired() && |data| <= wanted && data == f.content[offset..offset + |data|]
        decreases wanted - |data|
      {
        var position := offset + |data|;
        var index, start := position / CLUSTER_BYTES, position % CLUSTER_BYTES;
        if index >= count {
          assert false;
          return Corrupt, data;
        }
        var chunk := CLUSTER_BYTES - start;
        if chunk > wanted - |data| {
          chunk := wanted - |data|;
        }
        assert f.chain[index] == chain[index];
        CarriedInRange(Logical(), g, f.chain, f.content, index);
        var sectors;
        status, sectors := ReadCluster(chain[index]);
        if status.Failed() {
          return;
        }
        FlattenedIsCluster(Logical(), g, chain[index], sectors);
        ChunkIsContent(Logical(), g, f.chain, f.content, index, start, chunk);
        data := data + Flattened(sectors)[start..start + chunk];
      }
      status := Ok;
    }

    // ----- whole runs -----------------------------------------------------------------------------

    ghost predicate Servable(r: Request) {
      match r
      case Creating(directory, name) => directory in v.dirs && ValidStoredName(name)
      case Replacing(where, _) => Reachable(where)
      case Appending(where, _) => Reachable(where)
      case Removing(where) => Reachable(where)
      case Renaming(where, name) => Reachable(where) && ValidStoredName(name)
    }

    /** Hands a request to its operation. */
    method Dispatch(r: Request) returns (status: Status, ghost op: Op)
      requires Idle() && Servable(r)
      modifies this`initialized, this`dirty, this`claims, fat, chain, oldChain, sync, sync.cache`entries
      modifies sync.cache`useClock, sync.cache`logical, sync.cache`currentGeneration
      modifies sync.cache.device`data, sync.cache.device`maybe, sync.cache.device`exposed, sync.cache.device`past
      modifies sync.cache.device.log
      ensures Idle() && op.Valid() && op.v == v && op.start == old(Durable())
      ensures if old(initialized) && writable
              then Answered(r, status, op) && sync.cache.device.past == old(sync.cache.device.History())
              else Declined(status)
    {
      hide Represents, Held;
      match r {
        case Creating(directory, name) => status, op := Create(directory, name);
        case Replacing(where, bytes) => status, op := SaveContent(where, bytes, false);
        case Appending(where, bytes) => status, op := SaveContent(where, bytes, true);
        case Removing(where) => status, op := Delete(where);
        case Renaming(where, name) => status, op := Rename(where, name);
      }
    }

    /** One request: a safe answer to it, and the history has grown by exactly the images of this step. */
    method Perform(r: Request) returns (status: Status, ghost step: Step)
      requires Idle() && Servable(r) && Sound(v, Durable())
      modifies this`initialized, this`dirty, this`claims, fat, chain, oldChain, sync, sync.cache`entries
      modifies sync.cache`useClock, sync.cache`logical, sync.cache`currentGeneration
      modifies sync.cache.device`data, sync.cache.device`maybe, sync.cache.device`exposed, sync.cache.device`past
      modifies sync.cache.device.log
      ensures Idle() && Sound(v, Durable())
      ensures StepOf(v, r, step) && step.status == status && step.below == sync.State()
      ensures step.op.start == old(Durable()) && step.end == Durable()
      ensures step.before == old(Logical()) && step.after == Logical()
      ensures sync.cache.device.History() == old(sync.cache.device.History()) + step.images
      ensures old(initialized) && writable ==>
              status == Answer(v, old(fat[..]), old(Logical()), r) || sync.Blamed(status)
      ensures writable && status.FromBelow() ==> sync.Blamed(status)
      ensures status.FromBelow() || initialized == old(initialized)
      ensures !old(initialized) ==>
              status == InvalidState && sync.cache.device.log.faults == old(sync.cache.device.log.faults)
      ensures old(initialized) && writable && old(Settled()) && !status.FromBelow() ==> Settled() && Exact(v, r, step)
      ensures if old(initialized) && writable then step.images == sync.cache.device.exposed
              else status != Ok && Untouched(step)
    {
      hide SafeStep, StepOf, Represents, Held;
      hide Exact;
      hide Answer, Leaves, Overlong, Table;
      hide Live, Quiescent, Sound, Allowed, Serves, Listed, FileAt, Aimed, Guarded, RestKept;
      ghost var op;
      ghost var served, logical := initialized && writable, Logical();
      status, op := Dispatch(r);
      step := Step(op, if served then sync.cache.device.exposed else iset{Durable()}, status, logical, Logical(),
                   Durable(), sync.State());
      if !served {
        StandingStill(op);
      }
      assert sync.cache.device.Possible(Durable());
      IsStep(v, r, step);
      if served {
        AnswerIsOwn(v, old(fat[..]), old(Logical()), r);
      }
      if served && old(Settled()) && !status.FromBelow() {
        IsExact(v, r, step);
      }
    }

    /**
      Any sequence of requests, served or refused, failing or not, and any power cut during it: a safe answer
      to each, and the history has grown by nothing but the images of the steps.
    */
    method Run(requests: seq<Request>) returns (ghost trace: seq<Step>)
      requires Idle() && Sound(v, Durable()) && forall i :: 0 <= i < |requests| ==> Servable(requests[i])
      modifies this`initialized, this`dirty, this`claims, fat, chain, oldChain, sync, sync.cache`entries
      modifies sync.cache`useClock, sync.cache`logical, sync.cache`currentGeneration
      modifies sync.cache.device`data, sync.cache.device`maybe, sync.cache.device`exposed, sync.cache.device`past
      modifies sync.cache.device.log
      ensures Idle() && Sound(v, Durable()) && RunOf(v, requests, trace)
      ensures Spans(trace, old(Durable()), old(Logical()), Durable(), Logical())
      ensures sync.cache.device.History() == old(sync.cache.device.History()) + Images(trace)
      ensures !old(initialized) ==> forall i :: 0 <= i < |trace| ==> trace[i].status == InvalidState
      ensures !old(initialized) ==> sync.cache.device.log.faults == old(sync.cache.device.log.faults)
      ensures writable ==> Excused(trace)
      ensures old(initialized) && writable && old(Settled()) && Unfailing(trace) ==>
              initialized && Settled() && AllExact(v, requests, trace)
    {
      hide AllExact, Unfailing, Excused, Exact, Answer, Untouched, Table, Atomic, Guarded, FatEntry, Represents, Held;
      hide Live, Quiescent, Traced, Sound, StepOf, Images, RunOf, Spans, SafeStep;
      trace := [];
      RunBegins(v, Durable(), Logical());
      ExactBegins(v);
      assert requests[..0] == [];
      for index := 0 to |requests|
        invariant Idle() && Sound(v, Durable()) && RunOf(v, requests[..index], trace)
        invariant Spans(trace, old(Durable()), old(Logical()), Durable(), Logical())
        invariant sync.cache.device.History() == old(sync.cache.device.History()) + Images(trace)
        invariant !old(initialized) ==> !initialized && forall i :: 0 <= i < |trace| ==> trace[i].status == InvalidState
        invariant !old(initialized) ==> sync.cache.device.log.faults == old(sync.cache.device.log.faults)
        invariant writable ==> Excused(trace)
        invariant old(initialized) && writable && old(Settled()) && Unfailing(trace) ==>
                  initialized && Settled() && AllExact(v, requests[..index], trace)
      {
        ghost var step;
        var status;
        status, step := Perform(requests[index]);
        ExactGrows(v, requests[..index], trace, requests[index], step);
        if writable {
          ExcusedGrows(trace, step);
        }
        RunGrows(v, requests[..index], trace, old(Durable()), old(Logical()), requests[index], step);
        assert requests[..index] + [requests[index]] == requests[..index + 1];
        trace := trace + [step];
      }
      assert requests[..|requests|] == requests;
    }
  }
}
