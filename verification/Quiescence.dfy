/**
  Between operations.  A failed operation may leave writes pending, but then every pair still reads
  the same either way and the directory concerned no longer scans, so nothing builds on it.
*/
module Quiescence {
  import opened Bytes
  import opened Status
  import opened Layout
  import opened Records
  import opened FatChain
  import opened BlockDevice
  import opened CrashSafety
  import opened CommitSteps
  import Directory
  import DirectoryChange

  function DirSlots(v: Volume, disk: Disk, c: nat): (slots: seq<Record>)
    requires v.Holds(disk) && c in v.dirs
    ensures |slots| == SLOTS && forall i :: 0 <= i < SLOTS ==> slots[i] == RecordAt(disk, v.g, Slot(c, i))
  {
    seq(SLOTS, i requires 0 <= i < SLOTS => RecordAt(disk, v.g, Slot(c, i)))
  }

  /** The same for any cluster, whatever it holds. */
  function RecordsOf(disk: Disk, g: Geometry, c: nat): (slots: seq<Record>)
    requires Fits(disk, g) && ClusterInRange(g, c)
    ensures |slots| == SLOTS && forall i :: 0 <= i < SLOTS ==> slots[i] == RecordAt(disk, g, Slot(c, i))
  {
    seq(SLOTS, i requires 0 <= i < SLOTS => RecordAt(disk, g, Slot(c, i)))
  }

  /** Whatever is pending, the pair at `at` reads as it does on the device. */
  ghost predicate MixSame(v: Volume, durable: Disk, logical: Disk, at: Slot)
    requires v.Holds(durable) && v.Holds(logical) && v.IsPair(at)
  {
    forall first, second ::
      (first == RecordAt(durable, v.g, at) || first == RecordAt(logical, v.g, at))
      && (second == RecordAt(durable, v.g, Second(at)) || second == RecordAt(logical, v.g, Second(at)))
      ==> Pair(first, second) == PairAt(v, durable, at)
  }

  ghost predicate DirSettled(v: Volume, durable: Disk, logical: Disk, c: nat)
    requires v.Holds(durable) && v.Holds(logical) && c in v.dirs
  {
    DirSlots(v, durable, c) == DirSlots(v, logical, c) || Directory.Scan(DirSlots(v, logical, c)).Failure?
  }

  ghost predicate Quiescent(v: Volume, durable: Disk, logical: Disk, fat: seq<u32>, claims: Claims) {
    && Guarded(v, durable, logical, fat, claims)
    && (forall at :: v.IsPair(at) ==> MixSame(v, durable, logical, at))
    && (forall c :: c in v.dirs ==> DirSettled(v, durable, logical, c))
  }

  lemma SameRecordsQuiescent(v: Volume, durable: Disk, logical: Disk, fat: seq<u32>, claims: Claims)
    requires Guarded(v, durable, logical, fat, claims) && SameRecords(v, durable, logical)
    ensures Quiescent(v, durable, logical, fat, claims)
  {
    forall at | v.IsPair(at) ensures MixSame(v, durable, logical, at) {
      assert v.IsSlot(at) && v.IsSlot(Second(at));
    }
    forall c | c in v.dirs ensures DirSettled(v, durable, logical, c) {
      assert forall i :: 0 <= i < SLOTS ==> v.IsSlot(Slot(c, i));
    }
  }

  lemma EqualQuiescent(v: Volume, disk: Disk, fat: seq<u32>, claims: Claims)
    requires Guarded(v, disk, disk, fat, claims)
    ensures Quiescent(v, disk, disk, fat, claims)
  {
    SameRecordsQuiescent(v, disk, disk, fat, claims);
  }

  lemma QuiescentFrame(v: Volume, durable: Disk, logical: Disk, logical': Disk, fat: seq<u32>, fat': seq<u32>,
                       claims: Claims)
    requires Quiescent(v, durable, logical, fat, claims) && Guarded(v, durable, logical', fat', claims)
    requires SameRecords(v, logical, logical')
    ensures Quiescent(v, durable, logical', fat', claims)
  {
    forall at | v.IsPair(at) ensures MixSame(v, durable, logical', at) {
      assert v.IsSlot(at) && v.IsSlot(Second(at)) && MixSame(v, durable, logical, at);
    }
    forall c | c in v.dirs ensures DirSettled(v, durable, logical', c) {
      assert forall i :: 0 <= i < SLOTS ==> v.IsSlot(Slot(c, i));
      assert DirSlots(v, logical, c) == DirSlots(v, logical', c);
      assert DirSettled(v, durable, logical, c);
    }
  }

  /** Nothing pending and nothing in flight: an operation may start from here. */
  lemma OpStarts(op: Op, logical: Disk, fat: seq<u32>, claims: Claims)
    requires op.Valid() && Quiescent(op.v, op.start, logical, fat, claims)
    ensures Progress(op, op.start, logical, fat, claims)
  {
    forall at | op.v.IsPair(at) ensures MixAllowed(op, op.start, logical, fat, at) {
      assert MixSame(op.v, op.start, logical, at);
      CutShows(op.v, op.start, logical, fat, claims, op.start, at);
    }
  }

  // ----- what an operation relies on throughout ---------------------------------------------------

  /** The target lies on the way of a scan of its directory, and overlaps no other pair. */
  ghost predicate Ready(op: Op) {
    && op.Valid() && NeighboursFree(op)
    && Directory.Visits(Directory.Cells(DirSlots(op.v, op.start, op.target.cluster)), 0, op.target.index)
    && forall b :: op.v.IsSlot(b) && b.cluster == op.target.cluster && b.index < op.target.index ==>
         !NeverUsed(op.v, op.start, b)
  }

  ghost predicate Live(op: Op, durable: Disk, logical: Disk, fat: seq<u32>, claims: Claims) {
    && Ready(op) && Progress(op, durable, logical, fat, claims)
    && DirKept(op, durable, logical) && EntriesKept(op, fat, claims)
  }

  /** Data written where nothing is claimed changes nothing that anyone can see. */
  lemma DataWriteKeeps(op: Op, durable: Disk, logical: Disk, logical': Disk, fat: seq<u32>, claims: Claims, c: nat)
    requires Live(op, durable, logical, fat, claims) && Quiescent(op.v, durable, logical, fat, claims)
    requires DataOnly(op.v, logical, logical', c) && c !in op.v.dirs && !Claimed(claims, c)
    ensures Live(op, durable, logical', fat, claims) && Quiescent(op.v, durable, logical', fat, claims)
  {
    DataWrite(op, durable, logical, logical', fat, claims, c);
    QuiescentFrame(op.v, durable, logical, logical', fat, fat, claims);
  }

  lemma TargetFilled(op: Op, durable: Disk, logical: Disk)
    requires Ready(op) && op.v.Holds(durable) && op.v.Holds(logical) && DirKept(op, durable, logical)
    ensures FilledBefore(op.v, durable, logical, op.target)
    ensures !NeverUsed(op.v, durable, op.target) && !NeverUsed(op.v, logical, op.target) ==>
              FilledBefore(op.v, durable, logical, Second(op.target))
  {
    forall b | op.v.IsSlot(b) && b.cluster == op.target.cluster && b.index < op.target.index
      ensures !NeverUsed(op.v, durable, b) && !NeverUsed(op.v, logical, b)
    {
      assert !IsTarget(op, b) && !NeverUsed(op.v, op.start, b);
    }
    forall b | op.v.IsSlot(b) && b.cluster == op.target.cluster && b.index < Second(op.target).index
      ensures b == op.target || b.index < op.target.index
    {
      if b.index == op.target.index {
        assert b == op.target;
      }
    }
  }

  /** Records away from the target read the same before and after the next barrier. */
  ghost predicate OthersSame(op: Op, durable: Disk, logical: Disk)
    requires op.Valid() && op.v.Holds(durable) && op.v.Holds(logical)
  {
    forall b :: op.v.IsSlot(b) && !IsTarget(op, b) ==> RecordAt(durable, op.v.g, b) == RecordAt(logical, op.v.g, b)
  }

  /** The target's directory as a later scan sees it. */
  lemma TargetDir(op: Op, durable: Disk, logical: Disk)
    requires Ready(op) && op.v.Holds(durable) && op.v.Holds(logical) && DirKept(op, durable, logical)
    ensures DirSlots(op.v, logical, op.target.cluster) ==
            DirectoryChange.WithPair(DirSlots(op.v, op.start, op.target.cluster), op.target.index,
              RecordAt(logical, op.v.g, op.target), RecordAt(logical, op.v.g, Second(op.target)))
  {
    var c, k := op.target.cluster, op.target.index;
    var slots := DirSlots(op.v, logical, c);
    var expected := DirectoryChange.WithPair(DirSlots(op.v, op.start, c), k,
      RecordAt(logical, op.v.g, op.target), RecordAt(logical, op.v.g, Second(op.target)));
    forall i | 0 <= i < SLOTS ensures slots[i] == expected[i] {
      if i != k && i != k + 1 {
        assert !IsTarget(op, Slot(c, i));
      } else if i == k {
        assert op.target == Slot(c, i);
      } else {
        assert Second(op.target) == Slot(c, i);
      }
    }
  }

  /** An operation that stops with its pair half written has made its directory unscannable. */
  lemma HalfWrittenPairJams(op: Op, durable: Disk, logical: Disk)
    requires Ready(op) && op.v.Holds(durable) && op.v.Holds(logical) && DirKept(op, durable, logical)
    requires var first, second := RecordAt(logical, op.v.g, op.target), RecordAt(logical, op.v.g, Second(op.target));
      || (first[0] == COMPANION_TYPE && Pair(first, second) == None)
      || (first[0] == DELETED && FilePrimary(second).Some?)
    ensures Directory.Scan(DirSlots(op.v, logical, op.target.cluster)).Failure?
  {
    hide FirstKept, SecondKept, NeighboursFree, DirSlots, Directory.Cells, Directory.Scan, Pair, FilePrimary;
    var slots, k := DirSlots(op.v, op.start, op.target.cluster), op.target.index;
    var first, second := RecordAt(logical, op.v.g, op.target), RecordAt(logical, op.v.g, Second(op.target));
    TargetDir(op, durable, logical);
    DirectoryChange.PrefixUnchanged(slots, k, first, second);
    HalfPairFails(DirectoryChange.WithPair(slots, k, first, second), k);
  }

  lemma HalfPairFails(slots: seq<Record>, k: nat)
    requires k + 1 < |slots| && Directory.Visits(Directory.Cells(slots), 0, k)
    requires || (slots[k][0] == COMPANION_TYPE && Pair(slots[k], slots[k + 1]) == None)
             || (slots[k][0] == DELETED && FilePrimary(slots[k + 1]).Some?)
    ensures Directory.Scan(slots).Failure?
  {
    hide Directory.Visits, DecodeCompanion, Directory.DecodeInternal;
    var cells := Directory.Cells(slots);
    assert cells[k] == Directory.CellAt(slots, k) && cells[k + 1] == Directory.CellAt(slots, k + 1);
    if slots[k][0] == COMPANION_TYPE {
      Directory.UnsoundFails(cells, 0, k, []);
    } else {
      LonePrimaryIsUnsound(slots, k + 1);
      HoleIsPassed(cells, 0, k);
      Directory.UnsoundFails(cells, 0, k + 1, []);
    }
  }

  lemma LonePrimaryIsUnsound(slots: seq<Record>, i: nat)
    requires i < |slots| && FilePrimary(slots[i]).Some?
    ensures Directory.CellAt(slots, i).Bad?
  {
    var name := slots[i][..11];
    assert ValidStoredName(name) && name[..8][0] == name[0] == slots[i][0];
  }

  lemma {:induction false} HoleIsPassed(cells: seq<Directory.Cell>, i: nat, k: nat)
    requires Directory.Visits(cells, i, k) && k < |cells| && cells[k].Hole?
    ensures Directory.Visits(cells, i, k + 1)
    decreases |cells| - i
  {
    if i < k {
      match cells[i] {
        case Hole => HoleIsPassed(cells, i + 1, k);
        case Item(e) =>
          HoleIsPassed(cells, Directory.After(i, e), k);
          Directory.VisitsForward(cells, Directory.After(i, e), k + 1);
      }
    } else {
      assert Directory.Visits(cells, k + 1, k + 1);
    }
  }

  /** The state a commit or delete leaves when it stops halfway without a failed barrier. */
  lemma HalfWrittenQuiescent(op: Op, durable: Disk, logical: Disk, fat: seq<u32>, claims: Claims)
    requires Live(op, durable, logical, fat, claims) && OthersSame(op, durable, logical)
    requires var first, second := RecordAt(logical, op.v.g, op.target), RecordAt(logical, op.v.g, Second(op.target));
      || (first[0] == COMPANION_TYPE && Pair(first, second) == None)
      || (first[0] == DELETED && FilePrimary(second).Some?)
    requires forall second: Record :: Pair(RecordAt(durable, op.v.g, op.target), second) == None
    requires forall second: Record :: Pair(RecordAt(logical, op.v.g, op.target), second) == None
    requires RecordAt(durable, op.v.g, op.target)[0] in {COMPANION_TYPE, DELETED}
    requires RecordAt(logical, op.v.g, op.target)[0] in {COMPANION_TYPE, DELETED}
    requires RecordAt(durable, op.v.g, Second(op.target))[0] != COMPANION_TYPE
    requires RecordAt(logical, op.v.g, Second(op.target))[0] != COMPANION_TYPE
    ensures Quiescent(op.v, durable, logical, fat, claims)
  {
    var v := op.v;
    assert v.Holds(durable) && v.Holds(logical) && Guarded(v, durable, logical, fat, claims);
    hide Pair, FilePrimary, RecordAt, MixSame, Guarded, Progress, DirKept, DirSettled, Ready, EntriesKept;
    HalfWrittenPairJams(op, durable, logical);
    forall c | c in v.dirs ensures DirSettled(v, durable, logical, c) {
      HalfWrittenSettles(op, durable, logical, c);
    }
    forall at | v.IsPair(at) ensures MixSame(v, durable, logical, at) {
      HalfWrittenReads(op, durable, logical, at);
    }
  }

  lemma HalfWrittenSettles(op: Op, durable: Disk, logical: Disk, c: nat)
    requires op.Valid() && op.v.Holds(durable) && op.v.Holds(logical) && OthersSame(op, durable, logical)
             && c in op.v.dirs
    requires Directory.Scan(DirSlots(op.v, logical, op.target.cluster)).Failure?
    ensures DirSettled(op.v, durable, logical, c)
  {
    hide Directory.Scan, RecordAt;
    if c != op.target.cluster {
      assert forall i :: 0 <= i < SLOTS ==> op.v.IsSlot(Slot(c, i)) && !IsTarget(op, Slot(c, i));
    }
  }

  /** Behind a companion that reads as nothing every pair of slots reads the same from both images. */
  lemma HalfWrittenReads(op: Op, durable: Disk, logical: Disk, at: Slot)
    requires op.Valid() && op.v.Holds(durable) && op.v.Holds(logical) && OthersSame(op, durable, logical)
             && op.v.IsPair(at)
    requires forall second: Record :: Pair(RecordAt(durable, op.v.g, op.target), second) == None
    requires forall second: Record :: Pair(RecordAt(logical, op.v.g, op.target), second) == None
    requires RecordAt(durable, op.v.g, op.target)[0] in {COMPANION_TYPE, DELETED}
    requires RecordAt(logical, op.v.g, op.target)[0] in {COMPANION_TYPE, DELETED}
    requires RecordAt(durable, op.v.g, Second(op.target))[0] != COMPANION_TYPE
    requires RecordAt(logical, op.v.g, Second(op.target))[0] != COMPANION_TYPE
    ensures MixSame(op.v, durable, logical, at)
  {
    hide Pair, RecordAt;
    var v := op.v;
    assert v.IsSlot(at) && v.IsSlot(Second(at));
    if Second(at) == op.target {
      DeadSecond(RecordAt(durable, v.g, op.target));
      DeadSecond(RecordAt(logical, v.g, op.target));
      assert !IsTarget(op, at);
    } else if at == Second(op.target) {
      DeadFirst(RecordAt(durable, v.g, at));
      DeadFirst(RecordAt(logical, v.g, at));
    } else if at != op.target {
      assert !IsTarget(op, at) && !IsTarget(op, Second(at));
    }
  }

  lemma DeadSecond(r: Record)
    requires r[0] in {COMPANION_TYPE, DELETED, 0}
    ensures forall first: Record :: Pair(first, r) == None
  {
    forall first: Record ensures Pair(first, r) == None {
      OnlyPrimariesEndPairs(first, r);
    }
  }

  lemma DeadFirst(r: Record)
    requires r[0] != COMPANION_TYPE
    ensures forall second: Record :: Pair(r, second) == None
  {
    forall second: Record ensures Pair(r, second) == None {
      OnlyCompanionsStartPairs(r, second);
    }
  }

  // ----- claims -----------------------------------------------------------------------------------

  function ClaimOf(claims: Claims, at: Slot): set<nat> {
    if at in claims then claims[at] else {}
  }

  ghost function ClusterSet(chain: seq<u32>): (s: set<nat>)
    ensures forall c :: c in s <==> c in chain
  {
    set c: u32 | c in chain :: c
  }

  /** Claiming a persisted chain that nobody else claims. */
  lemma ClaimsGrow(op: Op, disk: Disk, fat: seq<u32>, claims: Claims, at: Slot, chain: seq<u32>)
    requires Progress(op, disk, disk, fat, claims)
    requires forall i :: 0 <= i < |chain| ==>
      && Stable(op.v, disk, disk, fat, chain[i]) && chain[i] !in op.v.dirs
      && forall b :: b in claims && b != at ==> chain[i] !in claims[b]
    ensures Progress(op, disk, disk, fat, claims[at := ClaimOf(claims, at) + ClusterSet(chain)])
  {
    var v, grown := op.v, claims[at := ClaimOf(claims, at) + ClusterSet(chain)];
    forall c | Claimed(grown, c)
      ensures c !in v.dirs && Stable(v, disk, disk, fat, c) && SameData(v, disk, disk, c)
    {
      if c !in chain {
        var b :| b in grown && c in grown[b];
        assert b in claims && c in claims[b];
        assert Claimed(claims, c);
      }
    }
    forall b | v.IsSlot(b) ensures Covered(fat, v.g, grown, b, RecordAt(disk, v.g, b)) {
      assert Covered(fat, v.g, claims, b, RecordAt(disk, v.g, b));
    }
    SeparateGrows(claims, at, chain);
  }

  lemma SeparateGrows(claims: Claims, at: Slot, chain: seq<u32>)
    requires Separate(claims)
    requires forall i, b :: 0 <= i < |chain| && b in claims && b != at ==> chain[i] !in claims[b]
    ensures Separate(claims[at := ClaimOf(claims, at) + ClusterSet(chain)])
  {
    var grown := claims[at := ClaimOf(claims, at) + ClusterSet(chain)];
    forall a, b | a in grown && b in grown && a != b ensures grown[a] !! grown[b] {
      if a == at {
        forall c | c in grown[a] ensures c !in grown[b] {
          if c in chain {
            var i :| 0 <= i < |chain| && chain[i] == c;
          }
        }
      } else if b == at {
        forall c | c in grown[b] ensures c !in grown[a] {
          if c in chain {
            var i :| 0 <= i < |chain| && chain[i] == c;
          }
        }
      }
    }
  }

  /** Giving up the part of a claim that the one remaining record does not need. */
  lemma ClaimsShrink(op: Op, disk: Disk, fat: seq<u32>, claims: Claims, at: Slot, chain: seq<u32>)
    requires Progress(op, disk, disk, fat, claims) && op.v.IsSlot(at)
    requires ClusterSet(chain) <= ClaimOf(claims, at)
    requires var p := FilePrimary(RecordAt(disk, op.v.g, at)); p.Some? ==> Backs(fat, op.v.g, p.value, chain)
    ensures Progress(op, disk, disk, fat, claims[at := ClusterSet(chain)])
  {
    var v, shrunk := op.v, claims[at := ClusterSet(chain)];
    forall c | Claimed(shrunk, c)
      ensures c !in v.dirs && Stable(v, disk, disk, fat, c) && SameData(v, disk, disk, c)
    {
      var b :| b in shrunk && c in shrunk[b];
      assert b in claims && c in claims[b];
      assert Claimed(claims, c);
    }
    forall b | v.IsSlot(b) ensures Covered(fat, v.g, shrunk, b, RecordAt(disk, v.g, b)) {
      assert Covered(fat, v.g, claims, b, RecordAt(disk, v.g, b));
      if b == at && FilePrimary(RecordAt(disk, v.g, at)).Some? {
        assert forall i :: 0 <= i < |chain| ==> chain[i] in shrunk[at];
      }
    }
    forall a, b | a in shrunk && b in shrunk && a != b ensures shrunk[a] !! shrunk[b] {
      assert a in claims || shrunk[a] == {};
      assert b in claims || shrunk[b] == {};
    }
  }
}
