/** From a blank device to a served volume: what holds of every run of requests on a freshly formatted root. */
module FreshVolume {
  import opened Bytes
  import opened Status
  import opened Layout
  import opened Records
  import opened FatChain
  import opened BlockDevice
  import opened BlockCache
  import opened Sync
  import opened CrashSafety
  import opened CommitSteps
  import opened Quiescence
  import opened Lookup
  import opened DirectoryState
  import opened Runs
  import opened Leaks
  import opened FileService
  import Superblock
  import Formatter
  import VolumeGeometry

  /** The request is about the root directory, the only one that a fresh volume has. */
  predicate InRoot(r: Request) {
    match r
    case Creating(directory, name) => directory == 2 && ValidStoredName(name)
    case Replacing(where, _) => PlacedInRoot(where)
    case Appending(where, _) => PlacedInRoot(where)
    case Removing(where) => PlacedInRoot(where)
    case Renaming(where, name) => PlacedInRoot(where) && ValidStoredName(name)
  }

  predicate AllInRoot(requests: seq<Request>) {
    forall i :: 0 <= i < |requests| ==> InRoot(requests[i])
  }

  predicate PlacedInRoot(where: Locator) {
    match where
    case ByName(directory, _) => directory == 2
    case ByObject(cluster, _) => cluster == 2
  }

  /** One directory, the root, with nothing in it, and no cluster in use but its own. */
  ghost predicate Fresh(v: Volume, blank: Disk) {
    && v.dirs == {2} && Sound(v, blank) && Standing(v, blank, blank, [[2]]) && Accounted(v, blank)
    && EmptyDirectory(v, blank, 2)
  }

  ghost predicate EmptyDirectory(v: Volume, disk: Disk, c: nat) {
    v.Holds(disk) && Scans(v, disk, c) && Listing(v, disk, c) == []
  }

  /** A fresh volume, the run on it, and the image that it ends with. */
  ghost predicate FreshRun(v: Volume, blank: Disk, requests: seq<Request>, trace: seq<Step>, end: Disk) {
    Fresh(v, blank) && RunOf(v, requests, trace) && Ends(trace, blank, end)
  }

  /** The trace starts at a quiet image and ends with this one on the device. */
  ghost predicate Ends(trace: seq<Step>, start: Disk, end: Disk) {
    exists after :: Spans(trace, start, start, end, after)
  }

  ghost predicate TidyRoot(v: Volume, disk: Disk) {
    v.Holds(disk) && Tidy(v, disk, [2])
  }

  /** After every request the root is tidy. */
  ghost predicate KeepsTidy(v: Volume, trace: seq<Step>) {
    forall i :: 0 <= i < |trace| ==> TidyRoot(v, trace[i].after)
  }

  /** After every request each cluster in use belongs to the root or to a file. */
  ghost predicate KeepsAccounted(v: Volume, trace: seq<Step>) {
    forall i :: 0 <= i < |trace| ==> Accounted(v, trace[i].end)
  }

  /** Every request was served, or refused before anything was written. */
  ghost predicate ServedOrRefused(trace: seq<Step>) {
    forall i :: 0 <= i < |trace| ==> trace[i].status == Ok || Untouched(trace[i])
  }

  /**
    In a run on a fresh volume in which no request breaks off, no two entries of the root ever share a base
    name, all slots after its first unused one are unused, and each request that is served changes the
    listing by exactly its own entry.
  */
  lemma FreshRunStaysTidy(v: Volume, blank: Disk, requests: seq<Request>, trace: seq<Step>, end: Disk)
    requires FreshRun(v, blank, requests, trace, end) && ServedOrRefused(trace) && AllInRoot(requests)
    ensures KeepsTidy(v, trace) && OwnEntriesOnly(requests, trace)
  {
    hide Sound, Tidy, OwnEntryOnly, EmptyDirectory, Accounted, Directories, StepOf, Untouched;
    var chains: seq<seq<u32>> := [[2]];
    forall i | 0 <= i < |trace| ensures FromTheHead(requests[i], trace[i], chains) {
      AsksTheRoot(v, requests[i], trace[i]);
    }
    RunStaysTidy(v, requests, trace, chains);
    assert chains[0] == [2];
  }

  /**
    And when the storage below does its part: every request gets exactly its answer, every refusal leaves the
    volume alone, the root stays tidy, and no cluster is lost.
  */
  lemma FreshRunIsExact(v: Volume, blank: Disk, requests: seq<Request>, trace: seq<Step>, end: Disk)
    requires FreshRun(v, blank, requests, trace, end) && AllExact(v, requests, trace) && AllInRoot(requests)
    ensures ServedOrRefused(trace) && OwnEntriesOnly(requests, trace)
    ensures KeepsTidy(v, trace) && KeepsAccounted(v, trace)
  {
    hide Sound, TidyRoot, OwnEntriesOnly, EmptyDirectory, Standing, Accounted, RunOf, Exact, Untouched;
    NothingLeaksInRuns(v, requests, trace);
    FreshRunStaysTidy(v, blank, requests, trace, end);
  }

  lemma AsksTheRoot(v: Volume, r: Request, step: Step)
    requires v.dirs == {2} && StepOf(v, r, step) && InRoot(r)
    ensures FromTheHead(r, step, [[2]])
  {
    hide NoDanglingNoSharing, Serves, Listed, Sound, RestKept, OthersKept, Allowed;
    var chains: seq<seq<u32>> := [[2]];
    assert chains[0][0] == 2;
    assert Atomic(step.op, step.op.start);
  }

  lemma RootStands(v: Volume, blank: Disk)
    requires v.dirs == {2} && v.Holds(blank) && Tidy(v, blank, [2])
    requires IsChain(Table(blank, v.g), v.g.Entries(), 2, [2])
    ensures Standing(v, blank, blank, [[2]])
  {
    hide Tidy, IsChain;
    var chains: seq<seq<u32>> := [[2]];
    assert IsDirectory(v, Table(blank, v.g), chains[0]);
    assert 2 in chains[0];
  }

  /** Formats the device, takes the volume over and serves the requests. */
  method FormatAndServe(device: Device, serial: u32, text: Superblock.Label, cacheEntries: nat, requests: seq<Request>)
    returns (status: Status, ghost v: Volume, ghost blank: Disk, ghost trace: seq<Step>)
    requires device.Valid() && device.sectorCount <= Superblock.MAX64 && 0 < cacheEntries <= MAX_ENTRIES
    requires AllInRoot(requests)
    modifies device, device.log
    ensures status == Ok ==> FreshRun(v, blank, requests, trace, device.data)
    ensures status == Ok ==> Sound(v, device.data) && Images(trace) <= device.History()
    ensures status == Ok ==> Excused(trace)
    ensures status == Ok && Unfailing(trace) ==>
            AllExact(v, requests, trace) || (NotStarted(trace) && device.log.faults > 0)
  {
    hide Accounted, AllExact, Unfailing, NotStarted, Excused, Ends;
    hide Sound, RunOf, Tidy, Standing, IsChain, Scans, Spans, Images, Formatter.Formatted, VolumeGeometry.IsLeast;
    hide Formatter.Values;
    var g;
    status, g := Formatter.Format(device, serial, text);
    v, blank, trace := Volume(g, {2}), device.data, [];
    if status.Failed() {
      return;
    }
    Formatter.FormattedIsSound(device.data, g, Formatter.Values(g, serial, text));
    Formatter.FormattedIsTidy(device.data, g, Formatter.Values(g, serial, text));
    RootStands(v, blank);
    ReservedIsEnd(device.data, g, Formatter.Values(g, serial, text));
    FormattedIsAccounted(device.data, g, Formatter.Values(g, serial, text));
    trace := Serve(device, g, v, cacheEntries, requests);
  }

  /** Taking the volume over failed, which takes a fault of the device, so no request was looked at. */
  predicate NotStarted(trace: seq<Step>) {
    forall i :: 0 <= i < |trace| ==> trace[i].status == InvalidState
  }

  /** A fresh volume has no file and only the root's one cluster in use. */
  lemma FormattedIsAccounted(disk: Disk, g: Geometry, s: Superblock.Superblock)
    requires Formatter.Formatted(disk, g, s)
    ensures Accounted(Volume(g, {2}), disk)
  {
    hide Superblock.SuperblockBytes, FatEntry, Pair;
    var v := Volume(g, {2});
    Formatter.FormattedTable(disk, g, s);
    forall at | v.IsPair(at) ensures PairAt(v, disk, at) == None {
      Formatter.FormattedRoot(disk, g, s, at.index);
      assert at == Slot(2, at.index);
      DeadFirst(RecordAt(disk, g, at));
    }
  }

  lemma ReservedIsEnd(disk: Disk, g: Geometry, s: Superblock.Superblock)
    requires Formatter.Formatted(disk, g, s)
    ensures ReservedEnd(Table(disk, g))
  {
    hide Superblock.SuperblockBytes, FatEntry;
    Formatter.FormattedTable(disk, g, s);
  }

  method Serve(device: Device, g: Geometry, ghost v: Volume, cacheEntries: nat, requests: seq<Request>)
    returns (ghost trace: seq<Step>)
    requires device.Valid() && device.Quiet() && 0 < cacheEntries <= MAX_ENTRIES
    requires v == Volume(g, {2}) && Sound(v, device.data) && ReservedEnd(Table(device.data, g))
    requires AllInRoot(requests)
    modifies device, device.log
    ensures RunOf(v, requests, trace) && Sound(v, device.data) && Images(trace) <= device.History()
    ensures Ends(trace, old(device.data), device.data)
    ensures Excused(trace)
    ensures Unfailing(trace) ==> AllExact(v, requests, trace) || (NotStarted(trace) && device.log.faults > 0)
  {
    hide AllExact, Unfailing, Excused, Sound, RunOf, Spans, Images, Table;
    var service := TakeOver(device, g, v, cacheEntries);
    forall i | 0 <= i < |requests| ensures service.Servable(requests[i]) {
      assert InRoot(requests[i]);
    }
    trace := service.Run(requests);
  }

  /** A cache, a generation layer and the service on it; only a fault of the device keeps the service down. */
  method TakeOver(device: Device, g: Geometry, ghost v: Volume, cacheEntries: nat) returns (service: Service)
    requires device.Valid() && device.Quiet() && 0 < cacheEntries <= MAX_ENTRIES
    requires v == Volume(g, {2}) && Sound(v, device.data) && ReservedEnd(Table(device.data, g))
    modifies device.log
    ensures fresh(service) && fresh(service.sync) && fresh(service.sync.cache)
    ensures fresh(service.fat) && fresh(service.chain) && fresh(service.oldChain)
    ensures service.sync.cache.device == device && service.v == v && service.g == g && service.writable
    ensures service.Idle() && service.Logical() == device.data
    ensures if service.initialized then service.Settled() else device.log.faults > 0
  {
    hide Sound, Table, Represents;
    var cache := new Cache(device, cacheEntries);
    assert cache.entries[0].Evictable();
    var sync := new SyncLayer(cache);
    service := new Service(g, v, sync, true);
  }
}
