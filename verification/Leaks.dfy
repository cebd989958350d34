/**
  Clusters that are in use and belong to nothing: what one operation does to them, and that a run in which
  the storage below does its part makes none.
*/
module Leaks {
  import opened Bytes
  import opened Status
  import opened Layout
  import opened Records
  import opened FatChain
  import opened BlockDevice
  import opened CrashSafety
  import opened CommitSteps
  import opened Quiescence
  import opened ServiceSteps
  import opened ContentSteps
  import opened Refusals
  import opened Runs

  /** Every cluster in use belongs to a directory or to a file that a valid pair shows. */
  ghost predicate Leakless(v: Volume, disk: Disk)
    requires v.Holds(disk)
  {
    forall c :: ClusterInRange(v.g, c) && FatEntry(disk, v.g, c) != FREE ==> Owned(v, disk, c)
  }

  ghost predicate Owned(v: Volume, disk: Disk, c: nat)
    requires v.Holds(disk)
  {
    c in v.dirs || exists at :: v.IsPair(at) && Reaches(v, disk, at, c)
  }

  /** Every cluster in use afterwards is on the target's chain, or was in use before and not on its old chain. */
  ghost predicate ReturnsClusters(op: Op, end: Disk)
    requires op.Valid() && op.v.Holds(end)
  {
    forall c :: ClusterInRange(op.v.g, c) && FatEntry(end, op.v.g, c) != FREE ==>
      || Reaches(op.v, end, op.target, c)
      || (FatEntry(op.start, op.v.g, c) != FREE && !Reaches(op.v, op.start, op.target, c))
  }

  /** The file at this pair has no more clusters than the service can list. */
  ghost predicate ShortAt(v: Volume, disk: Disk, at: Slot)
    requires v.Holds(disk) && v.IsPair(at)
  {
    PairAt(v, disk, at).Some? ==>
      forall chain :: Backs(Table(disk, v.g), v.g, PairAt(v, disk, at).value, chain) ==> |chain| <= MAX_CLUSTERS
  }

  ghost predicate Short(v: Volume, disk: Disk)
    requires v.Holds(disk)
  {
    forall at :: v.IsPair(at) ==> ShortAt(v, disk, at)
  }

  /** What an operation that was served leaves of the table. */
  ghost predicate Leaves(op: Op, end: Disk) {
    && op.Valid() && op.v.Holds(end) && ReturnsClusters(op, end)
    && (ShortAt(op.v, op.start, op.target) ==> ShortAt(op.v, end, op.target))
  }

  lemma LeavesBy(op: Op, end: Disk, oldChain: seq<u32>, newChain: seq<u32>)
    requires op.Valid() && op.v.Holds(end)
    requires forall c :: ClusterInRange(op.v.g, c) && FatEntry(end, op.v.g, c) != FREE ==>
             c in newChain || (FatEntry(op.start, op.v.g, c) != FREE && c !in oldChain)
    requires PairAt(op.v, op.start, op.target).Some? ==>
             Backs(Table(op.start, op.v.g), op.v.g, PairAt(op.v, op.start, op.target).value, oldChain)
    requires if PairAt(op.v, end, op.target).Some?
             then Backs(Table(end, op.v.g), op.v.g, PairAt(op.v, end, op.target).value, newChain) else newChain == []
    requires |newChain| <= MAX_CLUSTERS || (newChain == oldChain && PairAt(op.v, op.start, op.target).Some?)
    ensures Leaves(op, end)
  {
    hide IsChain, FatEntry, PairAt;
    forall c | ClusterInRange(op.v.g, c) && FatEntry(end, op.v.g, c) != FREE && c !in newChain
      ensures !Reaches(op.v, op.start, op.target, c)
    {
      if PairAt(op.v, op.start, op.target).Some? {
        OneBacking(Table(op.start, op.v.g), op.v.g, PairAt(op.v, op.start, op.target).value, oldChain);
      }
    }
    if PairAt(op.v, end, op.target).Some? {
      OneBacking(Table(end, op.v.g), op.v.g, PairAt(op.v, end, op.target).value, newChain);
    }
  }

  /** Every entry in use was so before, and its cluster is not on the chain. */
  ghost predicate Without(before: seq<u32>, after: seq<u32>, chain: seq<u32>) {
    && |after| == |before|
    && forall c :: 0 <= c < |after| && after[c] != FREE ==> before[c] != FREE && c !in chain
  }

  lemma StandsBacks(op: Op, logical: Disk, fat: seq<u32>, claims: Claims, f: OldFile)
    requires Stands(op, logical, fat, claims, f)
    ensures Backs(fat, op.v.g, f.primary, f.chain)
  {}

  lemma ChainOfFile(fat: seq<u32>, g: Geometry, p: Primary, chain: seq<u32>)
    requires g.Valid() && |fat| == g.fatSectors * ENTRIES_PER_SECTOR && Backs(fat, g, p, chain)
    ensures if p.fileSize == 0 then chain == [] else IsChain(fat, g.Entries(), p.firstCluster, chain)
    ensures chain != [] ==> chain[0] != 0
    ensures p.firstCluster == 0 ==> chain == []
  {}

  lemma FreedIsWithout(before: seq<u32>, after: seq<u32>, n: nat, start: u32, chain: seq<u32>)
    requires n <= |before| && Freed(before, after, n, start)
    requires if start == 0 then chain == [] else IsChain(before, n, start, chain)
    ensures Without(before, after, chain)
  {
    hide IsChain;
  }

  /** The same, but for the clusters of a new chain. */
  ghost predicate Swapped(before: seq<u32>, after: seq<u32>, oldChain: seq<u32>, newChain: seq<u32>) {
    && |after| == |before|
    && forall c :: 0 <= c < |after| && after[c] != FREE ==> c in newChain || (before[c] != FREE && c !in oldChain)
  }

  lemma SwapsByAllocation(before: seq<u32>, middle: seq<u32>, after: seq<u32>, oldChain: seq<u32>, newChain: seq<u32>)
    requires |middle| == |before| && forall c :: 0 <= c < |before| && c !in newChain ==> middle[c] == before[c]
    requires Without(middle, after, oldChain)
    ensures Swapped(before, after, oldChain, newChain)
  {}

  /** A file was put in place of what was at the target, and the table went from one to the other. */
  lemma PublishedLeaves(op: Op, end: Disk, before: seq<u32>, fat: seq<u32>, claims: Claims, p: Primary,
                        oldChain: seq<u32>, newChain: seq<u32>)
    requires op.Valid() && op.v.Holds(end) && before == Table(op.start, op.v.g) && fat == Table(end, op.v.g)
    requires Published(op, end, fat, claims, p, newChain) && Swapped(before, fat, oldChain, newChain)
    requires PairAt(op.v, op.start, op.target).Some? ==>
             Backs(before, op.v.g, PairAt(op.v, op.start, op.target).value, oldChain)
    requires |newChain| <= MAX_CLUSTERS || (newChain == oldChain && PairAt(op.v, op.start, op.target).Some?)
    ensures Leaves(op, end)
  {
    hide FatEntry, PairAt, IsChain, Leaves;
    LeavesBy(op, end, oldChain, newChain);
  }

  lemma CreatedLeaves(op: Op, end: Disk, fat: seq<u32>, claims: Claims, p: Primary)
    requires op.Valid() && op.v.Holds(end) && fat == Table(op.start, op.v.g) == Table(end, op.v.g)
    requires Published(op, end, fat, claims, p, []) && PairAt(op.v, op.start, op.target) == None
    ensures Leaves(op, end)
  {
    PublishedLeaves(op, end, fat, fat, claims, p, [], []);
  }

  lemma RenamedLeaves(op: Op, end: Disk, fat: seq<u32>, claims: Claims, p: Primary, chain: seq<u32>)
    requires op.Valid() && op.v.Holds(end) && fat == Table(op.start, op.v.g) == Table(end, op.v.g)
    requires Published(op, end, fat, claims, p, chain)
    requires PairAt(op.v, op.start, op.target).Some?
    requires Backs(fat, op.v.g, PairAt(op.v, op.start, op.target).value, chain)
    ensures Leaves(op, end)
  {
    PublishedLeaves(op, end, fat, fat, claims, p, chain, chain);
  }

  lemma ErasedLeaves(op: Op, end: Disk, before: seq<u32>, fat: seq<u32>, chain: seq<u32>)
    requires op.Valid() && op.v.Holds(end) && before == Table(op.start, op.v.g) && fat == Table(end, op.v.g)
    requires Without(before, fat, chain) && PairAt(op.v, end, op.target) == None
    requires PairAt(op.v, op.start, op.target).Some? ==>
             Backs(before, op.v.g, PairAt(op.v, op.start, op.target).value, chain)
    ensures Leaves(op, end)
  {
    hide FatEntry, PairAt, IsChain, Leaves;
    LeavesBy(op, end, chain, []);
  }

  /** The walk over a file's chain fails only when the chain is too long. */
  lemma LongFile(v: Volume, disk: Disk, fat: seq<u32>, at: Slot, p: Primary, chain: seq<u32>)
    requires v.Holds(disk) && v.IsPair(at) && fat == Table(disk, v.g) && PairAt(v, disk, at) == Some(p)
    requires Backs(fat, v.g, p, chain) && p.fileSize != 0 && ChainFrom(fat, v.g.Entries(), p.firstCluster).Failure?
    ensures !ShortAt(v, disk, at)
  {
    LongChainFails(fat, v.g.Entries(), p.firstCluster, chain);
  }

  /** The target's file has more clusters than the service can list, and so cannot be given back. */
  ghost predicate Overlong(op: Op) {
    op.Valid() && !ShortAt(op.v, op.start, op.target)
  }

  lemma DeletedTooLong(op: Op, fat: seq<u32>, p: Primary, chain: seq<u32>)
    requires op.Valid() && fat == Table(op.start, op.v.g) && PairAt(op.v, op.start, op.target) == Some(p)
    requires Backs(fat, op.v.g, p, chain) && DeleteAnswer(op.v, fat, p) != Ok
    ensures Overlong(op)
  {
    LongFile(op.v, op.start, fat, op.target, p, chain);
  }

  lemma ErasedIsNoPair(v: Volume, first: Disk, disk: Disk, disk': Disk, at: Slot)
    requires RecordsChanged(v, first, disk, at, DELETED_RECORD, DELETED_RECORD)
    requires v.Holds(disk') && SameRecords(v, disk, disk')
    ensures PairAt(v, disk', at) == None
  {
    assert v.IsSlot(at);
    DeadFirst(DELETED_RECORD);
  }

  lemma NothingDone(op: Op)
    requires op.Valid()
    ensures Leaves(op, op.start)
  {}

  lemma OneBacking(fat: seq<u32>, g: Geometry, p: Primary, chain: seq<u32>)
    requires g.Valid() && |fat| == g.fatSectors * ENTRIES_PER_SECTOR && Backs(fat, g, p, chain)
    ensures forall other :: Backs(fat, g, p, other) ==> other == chain
  {
    forall other | Backs(fat, g, p, other) ensures other == chain {
      if p.fileSize != 0 {
        ChainUnique(fat, g.Entries(), p.firstCluster, other, chain);
      }
    }
  }

  /** An operation that was served leaks nothing. */
  lemma NothingLeaks(op: Op, end: Disk)
    requires op.Valid() && Leakless(op.v, op.start) && Atomic(op, end) && Leaves(op, end)
    ensures Leakless(op.v, end)
  {
    hide FatEntry, Sound, RestKept, PairAt, FileAt, Backs, ShortAt;
    var v := op.v;
    forall c | ClusterInRange(v.g, c) && FatEntry(end, v.g, c) != FREE ensures Owned(v, end, c) {
      if !Reaches(v, end, op.target, c) && c !in v.dirs {
        assert Owned(v, op.start, c);
        var at :| v.IsPair(at) && Reaches(v, op.start, at, c);
        assert at != op.target;
        StillReaches(op, end, at, c);
      }
    }
  }

  lemma StillReaches(op: Op, end: Disk, at: Slot, c: nat)
    requires op.Valid() && Atomic(op, end) && op.v.IsPair(at) && at != op.target && Reaches(op.v, op.start, at, c)
    ensures Reaches(op.v, end, at, c)
  {
    hide FatEntry, Sound, RestKept, PairAt, FileAt, Backs;
  }

  lemma StaysShort(op: Op, end: Disk)
    requires op.Valid() && Short(op.v, op.start) && Atomic(op, end) && Leaves(op, end)
    ensures Short(op.v, end)
  {
    hide FatEntry, Sound, RestKept, PairAt, FileAt, Backs, ReturnsClusters;
    forall at | op.v.IsPair(at) ensures ShortAt(op.v, end, at) {
      assert ShortAt(op.v, op.start, at);
    }
  }

  // ----- runs ---------------------------------------------------------------------------------------

  /** With nothing pending before and nothing failing below: exactly the answer, and no cluster lost. */
  ghost predicate Exact(v: Volume, r: Request, step: Step) {
    && v.Holds(step.before) && step.op.start == step.before && step.end == step.after
    && step.status == Answer(v, Table(step.before, v.g), step.before, r)
    && (step.status == Ok ==> Leaves(step.op, step.end))
    && (step.status != Ok ==> Untouched(step) || Overlong(step.op))
  }

  ghost predicate AllExact(v: Volume, requests: seq<Request>, trace: seq<Step>) {
    && |trace| == |requests|
    && forall i :: 0 <= i < |trace| ==> Exact(v, requests[i], trace[i])
  }

  /** The storage below did its part in every step. */
  predicate Unfailing(trace: seq<Step>) {
    forall i :: 0 <= i < |trace| ==> !trace[i].status.FromBelow()
  }

  /** An answer of the storage below has its reason there. */
  ghost predicate Excused(trace: seq<Step>) {
    forall i :: 0 <= i < |trace| && trace[i].status.FromBelow() ==> trace[i].below.Excuses(trace[i].status)
  }

  /** No transfer failed, the cache had room, generations were left, and the device takes writes. */
  ghost predicate Faultless(trace: seq<Step>) {
    forall i :: 0 <= i < |trace| ==> trace[i].below == Below(0, false, false, false)
  }

  lemma FaultlessIsUnfailing(trace: seq<Step>)
    requires Excused(trace) && Faultless(trace)
    ensures Unfailing(trace)
  {}

  lemma ExcusedGrows(trace: seq<Step>, step: Step)
    requires Excused(trace) && (step.status.FromBelow() ==> step.below.Excuses(step.status))
    ensures Excused(trace + [step])
  {}

  lemma IsExact(v: Volume, r: Request, step: Step)
    requires v.Holds(step.before) && step.op.start == step.before && step.end == step.after
    requires step.status == Answer(v, Table(step.before, v.g), step.before, r)
    requires step.status == Ok ==> Leaves(step.op, step.end)
    requires step.status != Ok ==> step.images == iset{step.op.start} || Overlong(step.op)
    requires step.images == iset{step.op.start} && step.status != Ok ==> step.after == step.before
    ensures Exact(v, r, step)
  {}

  lemma ExactBegins(v: Volume)
    ensures AllExact(v, [], []) && Unfailing([]) && Excused([])
  {}

  lemma ExactGrows(v: Volume, requests: seq<Request>, trace: seq<Step>, r: Request, step: Step)
    ensures Unfailing(trace + [step]) <==> Unfailing(trace) && !step.status.FromBelow()
    ensures AllExact(v, requests, trace) && Exact(v, r, step) ==> AllExact(v, requests + [r], trace + [step])
  {
    hide Exact;
    var all := trace + [step];
    assert all[|trace|] == step && forall i :: 0 <= i < |trace| ==> all[i] == trace[i];
  }

  /** No cluster is lost, and every file can be listed. */
  ghost predicate Accounted(v: Volume, disk: Disk) {
    v.Holds(disk) && Leakless(v, disk) && Short(v, disk)
  }

  lemma StepAccounted(v: Volume, r: Request, step: Step)
    requires StepOf(v, r, step) && Exact(v, r, step) && Accounted(v, step.op.start)
    ensures Accounted(v, step.end) && (step.status == Ok || Untouched(step))
  {
    hide Answer, Serves, Listed, Leakless, Leaves, ShortAt, RestKept, OthersKept, Sound, NoDanglingNoSharing, Table;
    assert Atomic(step.op, step.op.start) && Atomic(step.op, step.end);
    if step.status == Ok {
      NothingLeaks(step.op, step.end);
      StaysShort(step.op, step.end);
    } else {
      assert ShortAt(v, step.op.start, step.op.target);
    }
  }

  /**
    In a run in which the storage below does its part, every request gets exactly its answer, every refusal
    leaves the volume alone, and at no time does a cluster get lost: what is in use belongs to a directory
    or to a file.
  */
  lemma {:induction false} NothingLeaksInRuns(v: Volume, requests: seq<Request>, trace: seq<Step>)
    requires RunOf(v, requests, trace) && AllExact(v, requests, trace)
    requires trace != [] ==> Accounted(v, trace[0].op.start)
    ensures forall i :: 0 <= i < |trace| ==>
            Accounted(v, trace[i].end) && (trace[i].status == Ok || Untouched(trace[i]))
  {
    hide StepOf, Exact, Accounted, Untouched;
    if trace != [] {
      var last := |trace| - 1;
      NothingLeaksInRuns(v, requests[..last], trace[..last]);
      if last > 0 {
        assert trace[..last][last - 1] == trace[last - 1] && trace[..last][0] == trace[0];
      }
      StepAccounted(v, requests[last], trace[last]);
      forall i | 0 <= i < last ensures Accounted(v, trace[i].end) && (trace[i].status == Ok || Untouched(trace[i])) {
        assert trace[..last][i] == trace[i];
      }
    }
  }
}
