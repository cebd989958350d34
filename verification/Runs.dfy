/**
  What a client asks of the file service, what one request may do to volume and history, and what follows
  for whole runs of requests.
*/
module Runs {
  import opened Bytes
  import opened Status
  import opened Layout
  import opened Records
  import opened FatChain
  import opened BlockDevice
  import opened CrashSafety
  import opened CommitSteps
  import opened Quiescence
  import opened Lookup
  import opened ContentSteps
  import opened DirectoryState
  import opened CutDirectory
  import Directory
  import DirectoryChange

  datatype Request =
    | Creating(directory: nat, name: Name)
    | Replacing(where: Locator, bytes: seq<Byte>)
    | Appending(where: Locator, bytes: seq<Byte>)
    | Removing(where: Locator)
    | Renaming(where: Locator, name: Name)

  /**
    One request of a run: the operation it came to, every image that a power cut during it could have left,
    its result, what clients saw before and after, the device's image in the end, and how the storage below
    stood then, faults counted from the beginning of the request.
  */
  datatype Step = Step(op: Op, images: iset<Disk>, status: Status, before: Disk, after: Disk, end: Disk, below: Below)

  /** The operation is the one that the request asks for. */
  ghost predicate Serves(r: Request, op: Op) {
    && Aimed(op)
    && var was, fat := FileAt(op.v, op.start, op.target), Table(op.start, op.v.g);
       match r
       case Creating(directory, name) =>
         directory in op.v.dirs && was == NoFile && op.next == File(name, [])
           && Within(op.v, fat, directory, op.target.cluster)
       case Replacing(where, bytes) => Targets(op.v, fat, where, op.target, was) && op.next == File(was.name, bytes)
       case Appending(where, bytes) =>
         Targets(op.v, fat, where, op.target, was) && op.next == File(was.name, was.content + bytes)
       case Removing(where) => Targets(op.v, fat, where, op.target, was) && op.next == NoFile
       case Renaming(where, name) => Targets(op.v, fat, where, op.target, was) && op.next == File(name, was.content)
  }

  /** What a request that was served did to the listings of directories. */
  ghost predicate Listed(r: Request, op: Op, before: Disk, after: Disk) {
    && op.Valid()
    && match r
       case Creating(directory, name) =>
         CreatedIn(op.v, Table(op.start, op.v.g), directory, before, after, op.target,
                   Primary(name, ATTRIBUTE_REGULAR, 0, 0))
       case Replacing(_, _) => SavedIn(op.v, before, after, op.target)
       case Appending(_, _) => SavedIn(op.v, before, after, op.target)
       case Removing(_) => DeletedIn(op.v, before, after, op.target)
       case Renaming(_, name) =>
         || (FileAt(op.v, op.start, op.target).File? && FileAt(op.v, op.start, op.target).name == name
             && after == before)
         || RenamedIn(op.v, Table(op.start, op.v.g), before, after, op.target)
  }

  /** At every moment of the step the volume is sound, and the file it works on is old, new or blank. */
  ghost predicate SafeStep(v: Volume, step: Step) {
    && step.op.v == v && step.op.start in step.images && step.end in step.images
    && forall d :: d in step.images ==> Atomic(step.op, d) && v.Holds(d) && NoDanglingNoSharing(v, d)
  }

  /** Nothing was written. */
  ghost predicate Untouched(step: Step) {
    step.images == iset{step.op.start} && step.after == step.before
  }

  /** The step is a safe answer to the request: it did what was asked, some of it, or nothing at all. */
  ghost predicate StepOf(v: Volume, r: Request, step: Step) {
    && SafeStep(v, step)
    && (Serves(r, step.op) || (step.status != Ok && Untouched(step)))
    && (step.status == Ok ==>
          FileAt(v, step.end, step.op.target) == step.op.next && Listed(r, step.op, step.before, step.after))
  }

  /** A run: one step for each request, each starting where the one before ended. */
  ghost predicate RunOf(v: Volume, requests: seq<Request>, trace: seq<Step>) {
    && |trace| == |requests|
    && (forall i :: 0 <= i < |trace| ==> StepOf(v, requests[i], trace[i]))
    && forall i, j :: 0 <= i && j == i + 1 && j < |trace| ==>
         trace[j].op.start == trace[i].end && trace[j].before == trace[i].after
  }

  /** The run leads from the first pair of images to the last. */
  ghost predicate Spans(trace: seq<Step>, start: Disk, before: Disk, end: Disk, after: Disk) {
    if trace == [] then end == start && after == before
    else
      && trace[0].op.start == start && trace[0].before == before
      && trace[|trace| - 1].end == end && trace[|trace| - 1].after == after
  }

  /** Every image that a power cut at some moment of the run could have left. */
  ghost function Images(trace: seq<Step>): (images: iset<Disk>)
    ensures forall d :: d in images <==> exists i :: 0 <= i < |trace| && d in trace[i].images
  {
    iset d, i | 0 <= i < |trace| && d in trace[i].images :: d
  }

  lemma RunBegins(v: Volume, start: Disk, before: Disk)
    ensures RunOf(v, [], []) && Spans([], start, before, start, before) && Images([]) == iset{}
  {}

  lemma RunGrows(v: Volume, requests: seq<Request>, trace: seq<Step>, start: Disk, before: Disk, r: Request, step: Step)
    requires RunOf(v, requests, trace) && StepOf(v, r, step)
    requires Spans(trace, start, before, step.op.start, step.before)
    ensures RunOf(v, requests + [r], trace + [step]) && Spans(trace + [step], start, before, step.end, step.after)
    ensures Images(trace + [step]) == Images(trace) + step.images
  {
    hide StepOf;
    var all := trace + [step];
    forall d ensures d in Images(all) <==> d in Images(trace) || d in step.images {
      assert all[|trace|] == step && forall i :: 0 <= i < |trace| ==> all[i] == trace[i];
    }
  }

  /** The device shows what the operation aimed for. */
  ghost predicate ShowsNext(step: Step) {
    var op := step.op;
    op.Valid() && op.v.Holds(step.end) && FileAt(op.v, step.end, op.target) == op.next
  }

  lemma AtomicIsSafe(v: Volume, step: Step)
    requires step.op.v == v && step.op.start in step.images && step.end in step.images
    requires forall d :: d in step.images ==> Atomic(step.op, d)
    ensures SafeStep(v, step)
  {
    forall d | d in step.images ensures v.Holds(d) && NoDanglingNoSharing(v, d) {
      SoundMeansNoDanglingNoSharing(v, d);
    }
  }

  /** What makes a step of what an operation promises. */
  lemma IsStep(v: Volume, r: Request, step: Step)
    requires step.op.v == v && step.op.start in step.images && step.end in step.images
    requires forall d :: d in step.images ==> Atomic(step.op, d)
    requires Serves(r, step.op)
             || (step.images == iset{step.op.start} && step.after == step.before && step.status != Ok)
    requires step.status == Ok ==> ShowsNext(step) && Listed(r, step.op, step.before, step.after)
    ensures StepOf(v, r, step) && Sound(v, step.end)
  {
    hide Serves, Listed, FileAt;
    AtomicIsSafe(v, step);
    assert Atomic(step.op, step.end);
  }

  // ----- the table in memory and the table on the volume ----------------------------------------------

  /** A directory's chain is the same in memory and on the volume. */
  lemma DirChainInTable(v: Volume, durable: Disk, logical: Disk, fat: seq<u32>, claims: Claims, directory: u32,
                        cs: seq<u32>)
    requires Guarded(v, durable, logical, fat, claims) && directory in v.dirs
    requires IsChain(fat, v.g.Entries(), directory, cs)
    ensures IsChain(Table(durable, v.g), v.g.Entries(), directory, cs)
  {
    forall i | 0 <= i < |cs| ensures Table(durable, v.g)[cs[i]] == fat[cs[i]] {
      ChainInDirs(v, fat, directory, cs, i);
      assert Stable(v, durable, logical, fat, cs[i]);
    }
    ChainFrame(fat, Table(durable, v.g), v.g.Entries(), directory, cs);
  }

  lemma WithinInTable(v: Volume, durable: Disk, logical: Disk, fat: seq<u32>, claims: Claims, directory: nat, c: nat)
    requires Guarded(v, durable, logical, fat, claims) && directory in v.dirs && Within(v, fat, directory, c)
    ensures Within(v, Table(durable, v.g), directory, c)
  {
    var cs :| IsChain(fat, v.g.Entries(), directory, cs) && c in cs;
    DirChainInTable(v, durable, logical, fat, claims, directory, cs);
  }

  lemma AnswersInTable(v: Volume, durable: Disk, logical: Disk, fat: seq<u32>, claims: Claims, where: Locator, f: Found)
    requires Quiescent(v, durable, logical, fat, claims) && Answers(v, fat, where, f)
    requires where.ByName? ==> where.directory in v.dirs
    ensures v.Holds(durable) && Answers(v, Table(durable, v.g), where, f)
  {
    hide Within;
    if where.ByName? {
      WithinInTable(v, durable, logical, fat, claims, where.directory, f.cluster);
    }
  }

  /** A place found between operations is a sound place for one. */
  lemma PlaceIsAimed(op: Op, logical: Disk, fat: seq<u32>, claims: Claims)
    requires op.Valid() && Quiescent(op.v, op.start, logical, fat, claims)
    requires OnTheWay(op.v, logical, op.target) && WholeOrFree(op.v, logical, op.target)
    ensures Aimed(op)
  {
    hide Directory.Cells, Directory.Scan, Directory.Visits, FilePrimary, MixSame, Covered, Pair;
    var v, c := op.v, op.target.cluster;
    ScannedIsSettled(v, op.start, logical, fat, claims, c);
    assert op.target == Slot(c, op.target.index) && Second(op.target) == Slot(c, op.target.index + 1);
    var slots := DirSlots(v, op.start, c);
    forall i, j | 0 <= i < j < |slots| && slots[i][0] == 0 ensures slots[j][0] == 0 {
      assert v.IsSlot(Slot(c, i)) && v.IsSlot(Slot(c, j)) && NeverUsed(v, op.start, Slot(c, i));
    }
  }

  /** The operation works on the file that a lookup found. */
  ghost predicate Means(op: Op, f: Found) {
    && Aimed(op) && op.target == PairSlot(f)
    && FileAt(op.v, op.start, op.target).File? && FileAt(op.v, op.start, op.target).name == f.entry.primary.name
  }

  /** The operation is to replace or extend the content of a file of this name. */
  ghost predicate Saves(op: Op, name: Name, bytes: seq<Byte>, append: bool) {
    && Aimed(op) && FileAt(op.v, op.start, op.target).File? && FileAt(op.v, op.start, op.target).name == name
    && op.next == Saved(FileAt(op.v, op.start, op.target), bytes, append)
  }

  /** The operation that works on the file found is the one asked for, whatever was asked. */
  lemma FoundServes(op: Op, where: Locator, f: Found)
    requires Means(op, f) && f.entry.primarySlot == PairSlot(f).index + 1
             && Answers(op.v, Table(op.start, op.v.g), where, f)
    ensures forall bytes :: op.next == Saved(FileAt(op.v, op.start, op.target), bytes, false) ==>
            Serves(Replacing(where, bytes), op)
    ensures forall bytes :: op.next == Saved(FileAt(op.v, op.start, op.target), bytes, true) ==>
            Serves(Appending(where, bytes), op)
    ensures op.next == NoFile ==> Serves(Removing(where), op)
    ensures forall name :: op.next == File(name, FileAt(op.v, op.start, op.target).content) ==>
            Serves(Renaming(where, name), op)
  {
    hide FileAt, Within, Aimed;
  }

  /** What the contracts of the operations say of directories is what the request is to do to them. */
  lemma IsListed(op: Op, before: Disk, after: Disk)
    requires op.Valid()
    ensures forall directory, name ::
      CreatedIn(op.v, Table(op.start, op.v.g), directory, before, after, op.target,
                Primary(name, ATTRIBUTE_REGULAR, 0, 0)) ==>
      Listed(Creating(directory, name), op, before, after)
    ensures forall where, name ::
      || (FileAt(op.v, op.start, op.target).File? && FileAt(op.v, op.start, op.target).name == name && after == before)
      || RenamedIn(op.v, Table(op.start, op.v.g), before, after, op.target) ==>
      Listed(Renaming(where, name), op, before, after)
  {
    hide CreatedIn, RenamedIn, FileAt;
  }

  lemma CreateServes(op: Op, logical: Disk, fat: seq<u32>, claims: Claims, directory: u32, clusters: seq<u32>,
                     name: Name)
    requires Aimed(op) && Quiescent(op.v, op.start, logical, fat, claims) && directory in op.v.dirs
    requires IsChain(fat, op.v.g.Entries(), directory, clusters) && op.target.cluster in clusters
    requires PairAt(op.v, op.start, op.target) == None && op.next == File(name, [])
    ensures Serves(Creating(directory, name), op)
    ensures IsChain(Table(op.start, op.v.g), op.v.g.Entries(), directory, clusters)
  {
    hide IsChain, Aimed;
    DirChainInTable(op.v, op.start, logical, fat, claims, directory, clusters);
    var k :| 0 <= k < |clusters| && clusters[k] == op.target.cluster;
    InChainIsWithin(op.v, Table(op.start, op.v.g), directory, clusters, k);
  }

  // ----- runs on tidy directories -------------------------------------------------------------------

  /** The volume's directories, each the list of its clusters: every directory cluster is in exactly one of them. */
  ghost predicate Directories(v: Volume, fat: seq<u32>, chains: seq<seq<u32>>)
    requires v.g.Valid() && |fat| == v.g.fatSectors * ENTRIES_PER_SECTOR
  {
    && (forall k :: 0 <= k < |chains| ==> IsDirectory(v, fat, chains[k]))
    && (forall j, k, c :: 0 <= j < |chains| && 0 <= k < |chains| && j != k && c in chains[j] ==> c !in chains[k])
    && (forall c :: c in v.dirs ==> exists k :: 0 <= k < |chains| && c in chains[k])
  }

  ghost predicate IsDirectory(v: Volume, fat: seq<u32>, cs: seq<u32>)
    requires v.g.Valid() && |fat| == v.g.fatSectors * ENTRIES_PER_SECTOR
  {
    cs != [] && cs[0] in v.dirs && IsChain(fat, v.g.Entries(), cs[0], cs)
  }

  /** In no directory do two entries share a base name, and in each all slots after an unused one are unused. */
  ghost predicate AllTidy(v: Volume, disk: Disk, chains: seq<seq<u32>>)
    requires v.Holds(disk)
  {
    forall k :: 0 <= k < |chains| ==> Tidy(v, disk, chains[k])
  }

  /** The cluster is where a directory begins. */
  predicate Heads(chains: seq<seq<u32>>, c: nat) {
    exists k :: 0 <= k < |chains| && chains[k] != [] && chains[k][0] == c
  }

  /** New names are looked for in whole directories: a search sees the clusters from its start on, not those before. */
  ghost predicate FromTheHead(r: Request, step: Step, chains: seq<seq<u32>>) {
    match r
    case Creating(directory, _) => Heads(chains, directory)
    case Renaming(_, _) => Heads(chains, step.op.target.cluster)
    case _ => true
  }

  /** What clients see is tidy, directory by directory, and the device's table gives these directories. */
  ghost predicate Standing(v: Volume, clients: Disk, device: Disk, chains: seq<seq<u32>>) {
    && v.Holds(clients) && AllTidy(v, clients, chains)
    && v.Holds(device) && Directories(v, Table(device, v.g), chains)
  }

  /** Every request was served, or refused before anything was written, and searched whole directories. */
  ghost predicate Unbroken(requests: seq<Request>, trace: seq<Step>, chains: seq<seq<u32>>) {
    && |trace| == |requests|
    && forall i :: 0 <= i < |trace| ==>
         (trace[i].status == Ok || Untouched(trace[i])) && FromTheHead(requests[i], trace[i], chains)
  }

  /** Each request that was served changed the listings by exactly its own entry. */
  ghost predicate OwnEntriesOnly(requests: seq<Request>, trace: seq<Step>) {
    && |trace| == |requests|
    && forall i :: 0 <= i < |trace| && trace[i].status == Ok ==> OwnEntryOnly(requests[i], trace[i])
  }

  /** One request changed the listings by exactly its own entry, in one cluster. */
  ghost predicate OwnEntryOnly(r: Request, step: Step) {
    var v, at := step.op.v, step.op.target;
    && v.Holds(step.before) && v.Holds(step.after) && v.IsPair(at) && Elsewhere(v, step.before, step.after, at.cluster)
    && match r
       case Creating(_, name) => EntryAppears(v, step.before, step.after, at, Primary(name, ATTRIBUTE_REGULAR, 0, 0))
       case Removing(_) =>
         PairAt(v, step.before, at).Some?
           && EntryDisappears(v, step.before, step.after, at, PairAt(v, step.before, at).value)
       case _ =>
         || step.after == step.before
         || (PairAt(v, step.before, at).Some? && PairAt(v, step.after, at).Some?
             && EntryChanges(v, step.before, step.after, at, PairAt(v, step.before, at).value,
                             PairAt(v, step.after, at).value))
  }

  /** Sound images whose directory entries in the table agree have the same directories. */
  lemma SameDirectories(v: Volume, a: Disk, b: Disk, chains: seq<seq<u32>>)
    requires Sound(v, a) && v.Holds(b) && Directories(v, Table(a, v.g), chains)
    requires forall c :: c in v.dirs ==> FatEntry(b, v.g, c) == FatEntry(a, v.g, c)
    ensures Directories(v, Table(b, v.g), chains)
  {
    hide Guarded, FatEntry;
    forall k | 0 <= k < |chains| ensures IsDirectory(v, Table(b, v.g), chains[k]) {
      assert IsDirectory(v, Table(a, v.g), chains[k]);
      DirectoryCarries(v, a, b, chains[k]);
    }
  }

  lemma DirectoryCarries(v: Volume, a: Disk, b: Disk, cs: seq<u32>)
    requires Sound(v, a) && v.Holds(b) && IsDirectory(v, Table(a, v.g), cs)
    requires forall c :: c in v.dirs ==> FatEntry(b, v.g, c) == FatEntry(a, v.g, c)
    ensures IsDirectory(v, Table(b, v.g), cs)
  {
    hide FatEntry;
    forall i | 0 <= i < |cs| ensures Table(b, v.g)[cs[i]] == Table(a, v.g)[cs[i]] {
      ChainInDirs(v, Table(a, v.g), cs[0], cs, i);
    }
    ChainFrame(Table(a, v.g), Table(b, v.g), v.g.Entries(), cs[0], cs);
  }

  /** The directory that a create or rename searches is the one that begins there. */
  lemma SearchedFrom(v: Volume, fat: seq<u32>, chains: seq<seq<u32>>, head: nat, c: nat)
    returns (k: nat)
    requires v.g.Valid() && |fat| == v.g.fatSectors * ENTRIES_PER_SECTOR && Directories(v, fat, chains)
    requires Heads(chains, head) && Within(v, fat, head, c)
    ensures k < |chains| && c in chains[k] && IsChain(fat, v.g.Entries(), head, chains[k])
  {
    k :| 0 <= k < |chains| && chains[k] != [] && chains[k][0] == head;
    assert IsDirectory(v, fat, chains[k]);
    var cs :| IsChain(fat, v.g.Entries(), head, cs) && c in cs;
    ChainUnique(fat, v.g.Entries(), head, cs, chains[k]);
  }

  /** Which directory the changed cluster belongs to, and that a served request left that one tidy. */
  lemma ChangedDirectory(v: Volume, r: Request, step: Step, chains: seq<seq<u32>>) returns (k: nat)
    requires StepOf(v, r, step) && step.status == Ok && v.Holds(step.before)
    requires Directories(v, Table(step.op.start, v.g), chains) && AllTidy(v, step.before, chains)
    requires FromTheHead(r, step, chains)
    ensures k < |chains| && step.op.target.cluster in chains[k] && v.Holds(step.after) && Tidy(v, step.after, chains[k])
    ensures OwnEntryOnly(r, step) && step.op.v == v
  {
    hide Tidy, EntryAppears, EntryDisappears, EntryChanges, NoDanglingNoSharing, PairAt, FileAt, IsChain, Within, Heads;
    hide RestKept, OthersKept, OnTheWay, Directory.ZeroTail, DirSlots, Table;
    var op := step.op;
    assert Atomic(op, op.start);
    if r.Creating? {
      k := SearchedFrom(v, Table(op.start, v.g), chains, r.directory, op.target.cluster);
    } else if r.Renaming? && step.after != step.before {
      k := SearchedFrom(v, Table(op.start, v.g), chains, op.target.cluster, op.target.cluster);
    } else {
      k :| 0 <= k < |chains| && op.target.cluster in chains[k];
    }
  }

  /** A served request keeps every directory tidy and changes exactly its own entry. */
  lemma StepStaysTidy(v: Volume, r: Request, step: Step, chains: seq<seq<u32>>)
    requires StepOf(v, r, step) && step.status == Ok && v.Holds(step.before)
    requires Directories(v, Table(step.op.start, v.g), chains) && AllTidy(v, step.before, chains)
    requires FromTheHead(r, step, chains)
    ensures v.Holds(step.after) && AllTidy(v, step.after, chains) && OwnEntryOnly(r, step)
  {
    hide StepOf, Tidy, EntryAppears, EntryDisappears, EntryChanges, PairAt, IsDirectory, FromTheHead, Elsewhere;
    var k := ChangedDirectory(v, r, step, chains);
    forall j | 0 <= j < |chains| ensures Tidy(v, step.after, chains[j]) {
      if j != k {
        OtherStaysTidy(v, step.before, step.after, chains[j], step.op.target.cluster);
      }
    }
  }

  /** The volume still has the same directories when a request has been answered, whatever the answer. */
  lemma DirectoriesStay(v: Volume, r: Request, step: Step, chains: seq<seq<u32>>)
    requires StepOf(v, r, step) && v.Holds(step.op.start) && Directories(v, Table(step.op.start, v.g), chains)
    ensures v.Holds(step.end) && Directories(v, Table(step.end, v.g), chains)
  {
    hide Sound, RestKept, Serves, Listed, NoDanglingNoSharing, Directories, FileAt, PairAt, FatEntry, Allowed;
    assert Atomic(step.op, step.op.start) && Atomic(step.op, step.end);
    SameDirectories(v, step.op.start, step.end, chains);
  }

  lemma StepStands(v: Volume, r: Request, step: Step, chains: seq<seq<u32>>)
    requires StepOf(v, r, step) && Standing(v, step.before, step.op.start, chains)
    requires (step.status == Ok || Untouched(step)) && FromTheHead(r, step, chains)
    ensures Standing(v, step.after, step.end, chains) && (step.status == Ok ==> OwnEntryOnly(r, step))
  {
    hide StepOf, AllTidy, OwnEntryOnly, Directories, FromTheHead;
    DirectoriesStay(v, r, step, chains);
    if step.status == Ok {
      StepStaysTidy(v, r, step, chains);
    }
  }

  /**
    A run of requests on a volume with any number of directories, all of them tidy.  As long as each request
    is served, or refused without a write, every directory stays tidy: no two of its entries, in whatever
    clusters, share a base name, and all slots after the first unused one of a cluster are unused.  Each
    served request changes the listings by exactly its own entry, and the directories keep their clusters.
  */
  lemma {:induction false} RunStaysTidy(v: Volume, requests: seq<Request>, trace: seq<Step>, chains: seq<seq<u32>>)
    requires RunOf(v, requests, trace) && Unbroken(requests, trace, chains)
    requires trace != [] ==> Standing(v, trace[0].before, trace[0].op.start, chains)
    ensures forall i :: 0 <= i < |trace| ==> Standing(v, trace[i].after, trace[i].end, chains)
    ensures OwnEntriesOnly(requests, trace)
  {
    hide StepOf, Standing, OwnEntryOnly, FromTheHead, Untouched;
    if trace != [] {
      var last := |trace| - 1;
      RunStaysTidy(v, requests[..last], trace[..last], chains);
      if last > 0 {
        assert trace[..last][last - 1] == trace[last - 1] && trace[..last][0] == trace[0];
      }
      StepStands(v, requests[last], trace[last], chains);
      forall i | 0 <= i < |trace|
        ensures Standing(v, trace[i].after, trace[i].end, chains)
        ensures trace[i].status == Ok ==> OwnEntryOnly(requests[i], trace[i])
      {
        if i < last {
          assert trace[..last][i] == trace[i] && requests[..last][i] == requests[i];
        }
      }
    }
  }
}
