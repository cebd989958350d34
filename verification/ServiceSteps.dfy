/**
  The steps of the file service as facts about images, tables and claims: what each sector write,
  barrier and change of the table in memory does to an operation that is under way.
*/
module ServiceSteps {
  import opened Bytes
  import opened Status
  import opened Layout
  import opened Records
  import opened FatChain
  import opened BlockDevice
  import opened CrashSafety
  import opened CommitSteps
  import opened Quiescence

  lemma DataSectorKeeps(op: Op, durable: Disk, first: Disk, logical: Disk, fat: seq<u32>, claims: Claims,
                        c: nat, s: nat, bytes: Sector)
    requires Live(op, durable, logical, fat, claims) && Quiescent(op.v, durable, logical, fat, claims)
    requires ClusterInRange(op.v.g, c) && InCluster(op.v.g, c, s) && c !in op.v.dirs && !Claimed(claims, c)
    requires DataOnly(op.v, first, logical, c)
    ensures Live(op, durable, logical[s := bytes], fat, claims)
    ensures Quiescent(op.v, durable, logical[s := bytes], fat, claims)
    ensures DataOnly(op.v, first, logical[s := bytes], c)
  {
    DataLands(op.v, logical, c, s, bytes);
    DataWriteKeeps(op, durable, logical, logical[s := bytes], fat, claims, c);
    DataOnlyStep(op.v, first, logical, logical[s := bytes], c);
  }

  function SectorOf(bytes: seq<Byte>, k: nat): Sector
    requires |bytes| == CLUSTER_BYTES && k < SECTORS_PER_CLUSTER
  {
    bytes[k * SECTOR_SIZE..(k + 1) * SECTOR_SIZE]
  }

  lemma FilledStep(disk: Disk, g: Geometry, c: nat, bytes: seq<Byte>, k: nat)
    requires Fits(disk, g) && ClusterInRange(g, c) && |bytes| == CLUSTER_BYTES && k < SECTORS_PER_CLUSTER
    requires Filled(disk, g, c, bytes, k)
    ensures Filled(disk[ClusterSector(g, c) + k := SectorOf(bytes, k)], g, c, bytes, k + 1)
  {
    var disk' := disk[ClusterSector(g, c) + k := SectorOf(bytes, k)];
    forall i | 0 <= i < (k + 1) * SECTOR_SIZE ensures ClusterAt(disk', g, c)[i] == bytes[i] {
      if i < k * SECTOR_SIZE {
        assert ClusterAt(disk', g, c)[i] == ClusterAt(disk, g, c)[i];
      } else {
        assert i / SECTOR_SIZE == k && SectorOf(bytes, k)[i % SECTOR_SIZE] == bytes[i];
      }
    }
  }

  /** The first `sectors` sectors of cluster `c` hold the beginning of `bytes`. */
  ghost predicate Filled(disk: Disk, g: Geometry, c: nat, bytes: seq<Byte>, sectors: nat)
    requires Fits(disk, g) && ClusterInRange(g, c) && |bytes| == CLUSTER_BYTES && sectors <= SECTORS_PER_CLUSTER
    ensures sectors == SECTORS_PER_CLUSTER && Filled(disk, g, c, bytes, sectors) ==> ClusterAt(disk, g, c) == bytes
  {
    forall i :: 0 <= i < sectors * SECTOR_SIZE ==> ClusterAt(disk, g, c)[i] == bytes[i]
  }

  /** No cluster on the chain from here belongs to a file or a directory. */
  ghost predicate Unclaimed(v: Volume, fat: seq<u32>, claims: Claims, start: u32)
    requires v.g.Valid() && |fat| == v.g.fatSectors * ENTRIES_PER_SECTOR
  {
    forall cs: seq<u32>, i: nat :: IsChain(fat, v.g.Entries(), start, cs) && i < |cs| ==>
      !Claimed(claims, cs[i]) && cs[i] !in v.dirs
  }

  lemma AllocationKeepsOp(op: Op, durable: Disk, logical: Disk, before: seq<u32>, after: seq<u32>,
                          claims: Claims, cs: seq<u32>)
    requires op.v.g.Valid() && |before| == |after| == op.v.g.fatSectors * ENTRIES_PER_SECTOR
    requires Live(op, durable, logical, before, claims) && Quiescent(op.v, durable, logical, before, claims)
    requires 0 < |cs| <= |FreeClusters(before, op.v.g.Entries())|
             && cs == FreeClusters(before, op.v.g.Entries())[..|cs|]
    requires Linked(before, after, cs)
    ensures Live(op, durable, logical, after, claims) && Quiescent(op.v, durable, logical, after, claims)
    ensures Reserved(op.v, after, claims, [], cs)
    ensures forall c :: 0 <= c < |before| && c !in cs ==> after[c] == before[c]
  {
    AllocationIsReserved(op.v, durable, logical, before, after, claims, cs);
    TableChange(op, durable, logical, before, claims, after);
    EntriesFrame(op, before, claims, after);
    QuiescentFrame(op.v, durable, logical, logical, before, after, claims);
  }

  /** A chain of this operation's own: linked in memory, claimed by no file, marked for persisting. */
  ghost predicate Reserved(v: Volume, fat: seq<u32>, claims: Claims, due: seq<nat>, chain: seq<u32>)
    requires v.g.Valid() && |fat| == v.g.fatSectors * ENTRIES_PER_SECTOR
  {
    && (chain == [] || IsChain(fat, v.g.Entries(), chain[0], chain))
    && forall i :: 0 <= i < |chain| ==>
         && ClusterInRange(v.g, chain[i]) && chain[i] !in v.dirs && fat[chain[i]] != FREE
         && !Claimed(claims, chain[i]) && (due == [] || chain[i] / ENTRIES_PER_SECTOR in due)
  }

  lemma NoneReserved(v: Volume, fat: seq<u32>, claims: Claims, due: seq<nat>)
    requires v.g.Valid() && |fat| == v.g.fatSectors * ENTRIES_PER_SECTOR
    ensures Reserved(v, fat, claims, due, [])
  {}

  lemma ReservedInTable(v: Volume, fat: seq<u32>, claims: Claims, chain: seq<u32>)
    requires v.g.Valid() && |fat| == v.g.fatSectors * ENTRIES_PER_SECTOR && Reserved(v, fat, claims, [], chain)
    ensures forall i :: 0 <= i < |chain| ==> chain[i] < |fat|
  {}

  lemma ReservedMarked(v: Volume, fat: seq<u32>, claims: Claims, due: seq<nat>, chain: seq<u32>)
    requires v.g.Valid() && |fat| == v.g.fatSectors * ENTRIES_PER_SECTOR && Reserved(v, fat, claims, [], chain)
    requires forall i :: 0 <= i < |chain| ==> chain[i] / ENTRIES_PER_SECTOR in due
    ensures Reserved(v, fat, claims, due, chain)
  {}

  lemma ChainInTable(fat: seq<u32>, n: nat, start: u32, chain: seq<u32>)
    requires n <= |fat| && IsChain(fat, n, start, chain)
    ensures forall i :: 0 <= i < |chain| ==> chain[i] < |fat|
  {}

  lemma ReleasedElsewhere(before: seq<u32>, after: seq<u32>, chain: seq<u32>)
    requires Released(before, after, chain)
    ensures |after| == |before| && forall c :: 0 <= c < |before| && c !in chain ==> after[c] == before[c]
  {}

  lemma InUse(v: Volume, durable: Disk, logical: Disk, fat: seq<u32>, claims: Claims)
    requires Guarded(v, durable, logical, fat, claims)
    ensures forall c :: 0 <= c < |fat| && (Claimed(claims, c) || c in v.dirs) ==> fat[c] != FREE
  {
    forall c | 0 <= c < |fat| && (Claimed(claims, c) || c in v.dirs) ensures fat[c] != FREE {
      assert Stable(v, durable, logical, fat, c);
    }
  }

  lemma AllocationIsReserved(v: Volume, durable: Disk, logical: Disk, before: seq<u32>, after: seq<u32>,
                             claims: Claims, cs: seq<u32>)
    requires Guarded(v, durable, logical, before, claims)
    requires 0 < |cs| <= |FreeClusters(before, v.g.Entries())| && cs == FreeClusters(before, v.g.Entries())[..|cs|]
    requires Linked(before, after, cs)
    ensures Reserved(v, after, claims, [], cs)
    ensures forall c :: 0 <= c < |before| && (Claimed(claims, c) || c in v.dirs) ==> after[c] == before[c]
  {
    var n := v.g.Entries();
    FreeFromFacts(before, n, 2);
    InUse(v, durable, logical, before, claims);
    forall c | c in cs ensures !Claimed(claims, c) && c !in v.dirs && before[c] == FREE && ClusterInRange(v.g, c) {
      var i :| 0 <= i < |cs| && cs[i] == c;
      assert FreeClusters(before, n)[i] == c;
    }
    assert Distinct(cs);
    LinkedIsChain(before, after, n, cs);
    forall i | 0 <= i < |cs| ensures after[cs[i]] != FREE {
      ChainEntriesNotFree(after, n, cs[0], cs, i);
    }
  }

  function PairWritten(v: Volume, disk: Disk, at: Slot, companion: Record, primary: Record): (r: Disk)
    requires v.Holds(disk) && v.IsPair(at)
    ensures v.Holds(r)
  {
    WithRecordAt(v, WithRecordAt(v, disk, Second(at), primary), at, companion)
  }

  /** Every cluster of the chain is nobody else's, and its table entry is or is about to be written. */
  ghost predicate ChainReady(v: Volume, logical: Disk, fat: seq<u32>, claims: Claims, due: seq<nat>,
                             at: Slot, chain: seq<u32>)
    requires v.Holds(logical) && |fat| == v.g.fatSectors * ENTRIES_PER_SECTOR
  {
    forall i :: 0 <= i < |chain| ==>
      && ClusterInRange(v.g, chain[i]) && chain[i] !in v.dirs && fat[chain[i]] != FREE
      && (FatEntry(logical, v.g, chain[i]) == fat[chain[i]] || chain[i] / ENTRIES_PER_SECTOR in due)
      && forall b :: b in claims && b != at ==> chain[i] !in claims[b]
  }

  lemma ChainSettled(v: Volume, first: Disk, logical: Disk, fat: seq<u32>, claims: Claims, due: seq<nat>,
                     at: Slot, chain: seq<u32>)
    requires TableOnly(v, first, logical, fat) && Synced(v, logical, fat, due)
    requires ChainReady(v, first, fat, claims, due, at, chain)
    ensures forall i :: 0 <= i < |chain| ==>
      && Stable(v, logical, logical, fat, chain[i]) && chain[i] !in v.dirs
      && forall b :: b in claims && b != at ==> chain[i] !in claims[b]
  {}

  /** The primary record still in place, if it is a file's, is the one the operation started from. */
  ghost predicate OldStillStands(op: Op, disk: Disk, fat: seq<u32>)
    requires op.Valid() && op.v.Holds(disk) && |fat| == op.v.g.fatSectors * ENTRIES_PER_SECTOR
  {
    var r := RecordAt(disk, op.v.g, Second(op.target));
    && r[0] != COMPANION_TYPE
    && (FilePrimary(r).Some? ==> FileOf(FilePrimary(r), fat, disk, op.v.g) == FileAt(op.v, op.start, op.target))
  }

  lemma UncommittedAllowed(op: Op, disk: Disk, fat: seq<u32>, name: Name)
    requires op.Valid() && op.v.Holds(disk) && |fat| == op.v.g.fatSectors * ENTRIES_PER_SECTOR
    ensures CompanionBytes(name, false)[0] == COMPANION_TYPE
    ensures forall second ::
      Allowed(op, op.target, FileOf(Pair(CompanionBytes(name, false), second), fat, disk, op.v.g))
  {
    forall second: Record ensures Pair(CompanionBytes(name, false), second) == None {
      UncommittedNeverReads(name, second);
    }
  }

  const DELETED_RECORD: Record := [DELETED] + Zeros(RECORD_SIZE - 1)

  lemma DeletedAllowed(op: Op, disk: Disk, fat: seq<u32>)
    requires op.Valid() && op.v.Holds(disk) && |fat| == op.v.g.fatSectors * ENTRIES_PER_SECTOR
    ensures forall second ::
      Allowed(op, op.target, FileOf(Pair(DELETED_RECORD, second), fat, disk, op.v.g))
    ensures forall first ::
      Allowed(op, op.target, FileOf(Pair(first, DELETED_RECORD), fat, disk, op.v.g))
    ensures FilePrimary(DELETED_RECORD) == None
  {
    DeadFirst(DELETED_RECORD);
    DeadSecond(DELETED_RECORD);
    TaggedIsNoPrimary(DELETED_RECORD);
  }

  /** A delete that stops with one of its two records marked has made its directory unscannable. */
  lemma StoppedInDelete(op: Op, durable: Disk, logical: Disk, fat: seq<u32>, claims: Claims, name: Name)
    requires op.Valid() && op.v.Holds(durable) && Live(op, durable, logical, fat, claims)
    requires RecordAt(durable, op.v.g, op.target) == CompanionBytes(name, false)
    requires FilePrimary(RecordAt(durable, op.v.g, Second(op.target))).Some?
    requires logical == WithRecordAt(op.v, durable, op.target, DELETED_RECORD)
    ensures Quiescent(op.v, durable, logical, fat, claims)
  {
    hide WithRecordAt, RecordAt, Quiescent, DirKept, Progress;
    RecordLanded(op.v, durable, op.target, DELETED_RECORD);
    forall second: Record ensures Pair(CompanionBytes(name, false), second) == None {
      UncommittedNeverReads(name, second);
    }
    DeadFirst(DELETED_RECORD);
    var second := RecordAt(durable, op.v.g, Second(op.target));
    assert second[..11][..8][0] == second[0];
    assert CompanionBytes(name, false)[0] == COMPANION_TYPE;
    HalfWrittenQuiescent(op, durable, logical, fat, claims);
  }

  /** Behind an uncommitted companion any primary may be written: the pair reads as nothing. */
  lemma FenceHides(op: Op, disk: Disk, fat: seq<u32>, p: Primary)
    requires op.Valid() && op.v.Holds(disk) && |fat| == op.v.g.fatSectors * ENTRIES_PER_SECTOR
    requires RecordAt(disk, op.v.g, op.target) == CompanionBytes(p.name, false) && Encodable(p)
    ensures !NeverUsed(op.v, disk, op.target)
    ensures PrimaryBytes(p)[0] != COMPANION_TYPE && PrimaryBytes(p)[0] != 0
    ensures p.attributes == ATTRIBUTE_REGULAR ==> FilePrimary(PrimaryBytes(p)) == Some(p)
    ensures Allowed(op, op.target, FileOf(Pair(CompanionBytes(p.name, false), PrimaryBytes(p)), fat, disk, op.v.g))
  {
    UncommittedNeverReads(p.name, PrimaryBytes(p));
    PrimaryFirstByte(p);
    PrimaryRoundTrip(p);
    assert CompanionBytes(p.name, false)[0] == COMPANION_TYPE;
  }

  lemma StoppedBeforeCommit(op: Op, durable: Disk, logical: Disk, fat: seq<u32>, claims: Claims, p: Primary)
    requires op.Valid() && op.v.Holds(durable)
    requires Live(op, durable, logical, fat, claims) && Encodable(p)
    requires RecordAt(durable, op.v.g, op.target) == CompanionBytes(p.name, false)
    requires RecordAt(durable, op.v.g, Second(op.target))[0] != COMPANION_TYPE
    requires logical == WithRecordAt(op.v, durable, Second(op.target), PrimaryBytes(p))
    ensures Quiescent(op.v, durable, logical, fat, claims)
  {
    RecordLanded(op.v, durable, Second(op.target), PrimaryBytes(p));
    forall second: Record ensures Pair(CompanionBytes(p.name, false), second) == None {
      UncommittedNeverReads(p.name, second);
    }
    PrimaryFirstByte(p);
    assert CompanionBytes(p.name, false)[0] == COMPANION_TYPE;
    HalfWrittenQuiescent(op, durable, logical, fat, claims);
  }

  lemma CommittedStaged(op: Op, durable: Disk, logical: Disk, fat: seq<u32>, p: Primary)
    requires op.Valid() && op.v.Holds(durable) && |fat| == op.v.g.fatSectors * ENTRIES_PER_SECTOR
    requires Encodable(p) && p.attributes == ATTRIBUTE_REGULAR && OldStillStands(op, durable, fat)
    requires FileOf(Some(p), fat, durable, op.v.g) == op.next
    requires logical == WithRecordAt(op.v, durable, Second(op.target), PrimaryBytes(p))
    ensures CompanionBytes(p.name, true)[0] == COMPANION_TYPE
    ensures forall second ::
      second == RecordAt(durable, op.v.g, Second(op.target)) || second == RecordAt(logical, op.v.g, Second(op.target))
      ==> Allowed(op, op.target, FileOf(Pair(CompanionBytes(p.name, true), second), fat, durable, op.v.g))
  {
    RecordLanded(op.v, durable, Second(op.target), PrimaryBytes(p));
    CommittedShowsOldOrNew(op, durable, logical, fat, p);
  }

  /** Once only the new companion is out, the pair reads as the old file, the new file or nothing. */
  lemma CommittedShowsOldOrNew(op: Op, durable: Disk, logical: Disk, fat: seq<u32>, p: Primary)
    requires op.Valid() && op.v.Holds(durable) && op.v.Holds(logical)
    requires |fat| == op.v.g.fatSectors * ENTRIES_PER_SECTOR
    requires Encodable(p) && p.attributes == ATTRIBUTE_REGULAR && OldStillStands(op, durable, fat)
    requires FileOf(Some(p), fat, durable, op.v.g) == op.next
    requires RecordAt(logical, op.v.g, Second(op.target)) == PrimaryBytes(p)
    ensures forall second ::
      second == RecordAt(durable, op.v.g, Second(op.target)) || second == RecordAt(logical, op.v.g, Second(op.target))
      ==> Allowed(op, op.target, FileOf(Pair(CompanionBytes(p.name, true), second), fat, durable, op.v.g))
  {
    CommittedPairReads(p);
    var second := RecordAt(durable, op.v.g, Second(op.target));
    if Pair(CompanionBytes(p.name, true), second).Some? {
      assert FilePrimary(second) == Pair(CompanionBytes(p.name, true), second);
    }
  }

  /** Only table entries changed, and only to what memory holds. */
  ghost predicate TableOnly(v: Volume, logical: Disk, logical': Disk, fat: seq<u32>) {
    && v.Holds(logical) && v.Holds(logical') && |fat| == v.g.fatSectors * ENTRIES_PER_SECTOR
    && (forall c :: 0 <= c < |fat| ==>
          FatEntry(logical', v.g, c) == fat[c] || FatEntry(logical', v.g, c) == FatEntry(logical, v.g, c))
    && (forall c :: ClusterInRange(v.g, c) ==> ClusterAt(logical', v.g, c) == ClusterAt(logical, v.g, c))
    && SameRecords(v, logical, logical')
  }

  /** The given table sectors hold what memory holds. */
  ghost predicate Synced(v: Volume, logical: Disk, fat: seq<u32>, sectors: seq<nat>)
    requires v.Holds(logical) && |fat| == v.g.fatSectors * ENTRIES_PER_SECTOR
  {
    forall c :: 0 <= c < |fat| && c / ENTRIES_PER_SECTOR in sectors ==> FatEntry(logical, v.g, c) == fat[c]
  }

  /** Memory's table differs from the volume's at most in the sectors that are marked. */
  ghost predicate Marked(v: Volume, logical: Disk, fat: seq<u32>, due: seq<nat>)
    requires v.Holds(logical) && |fat| == v.g.fatSectors * ENTRIES_PER_SECTOR
  {
    forall c :: 0 <= c < |fat| && c / ENTRIES_PER_SECTOR !in due ==> FatEntry(logical, v.g, c) == fat[c]
  }

  lemma MarkedFlushed(v: Volume, first: Disk, logical: Disk, fat: seq<u32>, due: seq<nat>)
    requires v.Holds(first) && |fat| == v.g.fatSectors * ENTRIES_PER_SECTOR && Marked(v, first, fat, due)
    requires TableOnly(v, first, logical, fat) && Synced(v, logical, fat, due)
    ensures Marked(v, logical, fat, [])
  {}

  lemma MarkedRecord(v: Volume, logical: Disk, at: Slot, r: Record, fat: seq<u32>, due: seq<nat>)
    requires v.Holds(logical) && v.IsSlot(at) && |fat| == v.g.fatSectors * ENTRIES_PER_SECTOR
    requires Marked(v, logical, fat, due)
    ensures Marked(v, WithRecordAt(v, logical, at, r), fat, due)
  {
    RecordLanded(v, logical, at, r);
  }

  lemma MarkedErased(v: Volume, first: Disk, at: Slot, fence: Record, fat: seq<u32>, due: seq<nat>)
    requires v.Holds(first) && v.IsPair(at) && |fat| == v.g.fatSectors * ENTRIES_PER_SECTOR
             && Marked(v, first, fat, due)
    ensures var marked := WithRecordAt(v, WithRecordAt(v, first, at, fence), at, DELETED_RECORD);
            Marked(v, WithRecordAt(v, marked, Second(at), DELETED_RECORD), fat, due)
  {
    hide Marked, WithRecordAt;
    MarkedRecord(v, first, at, fence, fat, due);
    MarkedRecord(v, WithRecordAt(v, first, at, fence), at, DELETED_RECORD, fat, due);
    MarkedRecord(v, WithRecordAt(v, WithRecordAt(v, first, at, fence), at, DELETED_RECORD), Second(at), DELETED_RECORD,
                 fat, due);
  }

  lemma MarkedData(v: Volume, logical: Disk, logical': Disk, c: nat, fat: seq<u32>, due: seq<nat>)
    requires v.Holds(logical) && |fat| == v.g.fatSectors * ENTRIES_PER_SECTOR && Marked(v, logical, fat, due)
    requires DataOnly(v, logical, logical', c)
    ensures Marked(v, logical', fat, due)
  {}

  /** New entries whose sectors have all been marked. */
  lemma MarkedEntries(v: Volume, logical: Disk, fat: seq<u32>, fat': seq<u32>, cs: seq<u32>, due: seq<nat>)
    requires v.Holds(logical) && |fat| == |fat'| == v.g.fatSectors * ENTRIES_PER_SECTOR && Marked(v, logical, fat, [])
    requires forall c :: 0 <= c < |fat| && c !in cs ==> fat'[c] == fat[c]
    requires forall i :: 0 <= i < |cs| ==> cs[i] / ENTRIES_PER_SECTOR in due
    ensures Marked(v, logical, fat', due)
  {}

  lemma MarkedIsTable(v: Volume, logical: Disk, fat: seq<u32>)
    requires v.Holds(logical) && |fat| == v.g.fatSectors * ENTRIES_PER_SECTOR
    ensures Marked(v, logical, fat, []) <==> fat == Table(logical, v.g)
  {}

  /** Every entry in use was so before, and is not on the chain that was given back. */
  ghost predicate Freed(before: seq<u32>, after: seq<u32>, n: nat, start: u32)
    requires n <= |before|
  {
    && |after| == |before|
    && forall c :: 0 <= c < |after| && after[c] != FREE ==>
         after[c] == before[c] && (start != 0 ==> forall cs :: IsChain(before, n, start, cs) ==> c !in cs)
  }

  lemma ReleasedIsFreed(before: seq<u32>, after: seq<u32>, n: nat, start: u32, chain: seq<u32>)
    requires n <= |before| && IsChain(before, n, start, chain) && Released(before, after, chain)
    ensures Freed(before, after, n, start)
  {
    forall cs | IsChain(before, n, start, cs) ensures cs == chain {
      ChainUnique(before, n, start, cs, chain);
    }
  }

  lemma SyncedStep(v: Volume, logical: Disk, logical': Disk, fat: seq<u32>, sectors: seq<nat>, k: nat)
    requires v.Holds(logical) && |fat| == v.g.fatSectors * ENTRIES_PER_SECTOR && k < |sectors|
    requires Synced(v, logical, fat, sectors[..k]) && TableLanded(v, logical, fat, sectors[k], logical')
    ensures Synced(v, logical', fat, sectors[..k + 1])
  {
    assert sectors[..k + 1] == sectors[..k] + [sectors[k]];
  }

  lemma TableOnlyStart(v: Volume, logical: Disk, fat: seq<u32>)
    requires v.Holds(logical) && |fat| == v.g.fatSectors * ENTRIES_PER_SECTOR
    ensures TableOnly(v, logical, logical, fat)
  {}

  lemma TableOnlyStep(v: Volume, first: Disk, logical: Disk, logical': Disk, fat: seq<u32>, k: nat)
    requires TableOnly(v, first, logical, fat) && TableLanded(v, logical, fat, k, logical')
    ensures TableOnly(v, first, logical', fat)
  {}

  lemma TableDirKept(op: Op, durable: Disk, logical: Disk, logical': Disk)
    requires op.Valid() && op.v.Holds(durable) && op.v.Holds(logical) && op.v.Holds(logical')
    requires DirKept(op, durable, logical) && SameRecords(op.v, logical, logical')
    ensures DirKept(op, durable, logical')
  {}

  // ----- single steps over the closed invariants ---------------------------------------------------

  /** A sound image, taken over as it is, is a state between operations. */
  lemma TakeOver(v: Volume, disk: Disk) returns (claims: Claims)
    requires Sound(v, disk)
    ensures Quiescent(v, disk, disk, Table(disk, v.g), claims)
  {
    claims :| Guarded(v, disk, disk, Table(disk, v.g), claims);
    EqualQuiescent(v, disk, Table(disk, v.g), claims);
  }

  lemma QuiescentFacts(v: Volume, durable: Disk, logical: Disk, fat: seq<u32>, claims: Claims)
    requires Quiescent(v, durable, logical, fat, claims)
    ensures Guarded(v, durable, logical, fat, claims) && DirsClosed(v, fat)
  {}

  lemma StartIsAtomic(op: Op, logical: Disk, fat: seq<u32>, claims: Claims)
    requires op.Valid() && Quiescent(op.v, op.start, logical, fat, claims)
    ensures Atomic(op, op.start)
  {
    CutIsGuarded(op.v, op.start, logical, fat, claims, op.start);
  }

  /** A table reloaded from the volume, even in part, agrees with memory wherever it matters. */
  lemma LiveReload(op: Op, durable: Disk, logical: Disk, fat: seq<u32>, fat': seq<u32>, claims: Claims)
    requires Live(op, durable, logical, fat, claims) && Quiescent(op.v, durable, logical, fat, claims)
    requires |fat'| == |fat| && op.v.Holds(logical)
    requires forall c :: 0 <= c < |fat| ==> fat'[c] == fat[c] || fat'[c] == FatEntry(logical, op.v.g, c)
    ensures Live(op, durable, logical, fat', claims) && Quiescent(op.v, durable, logical, fat', claims)
  {
    forall c | 0 <= c < |fat| && (Claimed(claims, c) || c in op.v.dirs) ensures fat'[c] == fat[c] {
      assert Stable(op.v, durable, logical, fat, c);
    }
    TableChange(op, durable, logical, fat, claims, fat');
    EntriesFrame(op, fat, claims, fat');
    QuiescentFrame(op.v, durable, logical, logical, fat, fat', claims);
  }

  lemma LiveCut(op: Op, durable: Disk, logical: Disk, fat: seq<u32>, claims: Claims, d: Disk)
    requires Live(op, durable, logical, fat, claims) && Torn(durable, logical, d)
    ensures Atomic(op, d)
  {
    CutIsAtomic(op, durable, logical, fat, claims, d);
  }

  lemma LiveBarrier(op: Op, durable: Disk, logical: Disk, fat: seq<u32>, claims: Claims)
    requires Live(op, durable, logical, fat, claims)
    ensures Live(op, logical, logical, fat, claims)
  {
    BarrierDone(op, durable, logical, fat, claims);
  }

  lemma LiveEqual(op: Op, disk: Disk, fat: seq<u32>, claims: Claims)
    requires Live(op, disk, disk, fat, claims)
    ensures Quiescent(op.v, disk, disk, fat, claims)
  {
    EqualQuiescent(op.v, disk, fat, claims);
  }

  lemma LiveSameRecords(op: Op, durable: Disk, logical: Disk, fat: seq<u32>, claims: Claims)
    requires Live(op, durable, logical, fat, claims)
    requires op.v.Holds(durable) && op.v.Holds(logical) && SameRecords(op.v, durable, logical)
    ensures Quiescent(op.v, durable, logical, fat, claims)
  {
    SameRecordsQuiescent(op.v, durable, logical, fat, claims);
  }

  lemma LiveCompanion(op: Op, durable: Disk, logical: Disk, fat: seq<u32>, claims: Claims, r: Record)
    requires op.Valid() && op.v.Holds(durable) && op.v.Holds(logical)
    requires |fat| == op.v.g.fatSectors * ENTRIES_PER_SECTOR && Live(op, durable, logical, fat, claims)
    requires r[0] == COMPANION_TYPE || r[0] == DELETED
    requires forall second ::
      second == RecordAt(durable, op.v.g, Second(op.target)) || second == RecordAt(logical, op.v.g, Second(op.target))
      ==> Allowed(op, op.target, FileOf(Pair(r, second), fat, durable, op.v.g))
    ensures Live(op, durable, WithRecordAt(op.v, logical, op.target, r), fat, claims)
  {
    hide FilePrimary, Covered;
    TargetFilled(op, durable, logical);
    CompanionWrite(op, durable, logical, fat, claims, r);
    RecordLanded(op.v, logical, op.target, r);
  }

  lemma LivePrimary(op: Op, durable: Disk, logical: Disk, fat: seq<u32>, claims: Claims, r: Record)
    requires op.Valid() && op.v.Holds(durable) && op.v.Holds(logical)
    requires |fat| == op.v.g.fatSectors * ENTRIES_PER_SECTOR && Live(op, durable, logical, fat, claims)
    requires r[0] != COMPANION_TYPE && r[0] != 0 && Covered(fat, op.v.g, claims, Second(op.target), r)
    requires FilePrimary(r).Some? || r[0] == DELETED
    requires !NeverUsed(op.v, durable, op.target) && !NeverUsed(op.v, logical, op.target)
    requires forall first ::
      first == RecordAt(durable, op.v.g, op.target) || first == RecordAt(logical, op.v.g, op.target)
      ==> Allowed(op, op.target, FileOf(Pair(first, r), fat, durable, op.v.g))
    ensures Live(op, durable, WithRecordAt(op.v, logical, Second(op.target), r), fat, claims)
  {
    hide FilePrimary, Covered;
    TargetFilled(op, durable, logical);
    PrimaryWrite(op, durable, logical, fat, claims, r);
    RecordLanded(op.v, logical, Second(op.target), r);
  }

  lemma LiveTable(op: Op, durable: Disk, logical: Disk, fat: seq<u32>, claims: Claims, k: nat)
    requires op.Valid() && op.v.Holds(logical) && Live(op, durable, logical, fat, claims)
    requires |fat| == op.v.g.fatSectors * ENTRIES_PER_SECTOR && k < op.v.g.fatSectors
    ensures TableLanded(op.v, logical, fat, k, logical[SUPERBLOCK_SECTORS + k := TableSector(fat, k)])
    ensures Live(op, durable, logical[SUPERBLOCK_SECTORS + k := TableSector(fat, k)], fat, claims)
  {
    var logical' := logical[SUPERBLOCK_SECTORS + k := TableSector(fat, k)];
    TableLands(op.v, logical, fat, k);
    TableWrite(op, durable, logical, logical', fat, claims, k);
    TableDirKept(op, durable, logical, logical');
  }

  lemma LiveClaim(op: Op, first: Disk, disk: Disk, fat: seq<u32>, claims: Claims, due: seq<nat>,
                  at: Slot, chain: seq<u32>)
    requires Live(op, disk, disk, fat, claims) && at == Second(op.target)
    requires TableOnly(op.v, first, disk, fat) && Synced(op.v, disk, fat, due)
    requires ChainReady(op.v, first, fat, claims, due, at, chain)
    ensures Live(op, disk, disk, fat, claims[at := ClaimOf(claims, at) + ClusterSet(chain)])
  {
    ChainSettled(op.v, first, disk, fat, claims, due, at, chain);
    ClaimsGrow(op, disk, fat, claims, at, chain);
  }

  lemma LiveRelease(op: Op, durable: Disk, logical: Disk, before: seq<u32>, after: seq<u32>, claims: Claims,
                    start: u32, cs: seq<u32>)
    requires Live(op, durable, logical, before, claims) && op.v.g.Valid()
    requires |before| == op.v.g.fatSectors * ENTRIES_PER_SECTOR && Unclaimed(op.v, before, claims, start)
    requires IsChain(before, op.v.g.Entries(), start, cs) && Released(before, after, cs)
    ensures Live(op, durable, logical, after, claims)
    ensures forall c :: 0 <= c < |before| && Claimed(claims, c) ==> after[c] == before[c]
  {
    TableChange(op, durable, logical, before, claims, after);
    EntriesFrame(op, before, claims, after);
  }

  // ----- what a commit does to the image -----------------------------------------------------------

  /** The operation replaced the two records at `at` and no other record. */
  ghost predicate RecordsChanged(v: Volume, disk: Disk, disk': Disk, at: Slot, first: Record, second: Record) {
    && v.Holds(disk) && v.Holds(disk') && v.IsPair(at)
    && RecordAt(disk', v.g, at) == first && RecordAt(disk', v.g, Second(at)) == second
    && forall b :: v.IsSlot(b) && b != at && b != Second(at) ==> RecordAt(disk', v.g, b) == RecordAt(disk, v.g, b)
  }

  /** The same, and all file data is as before. */
  ghost predicate PairChanged(v: Volume, disk: Disk, disk': Disk, at: Slot, companion: Record, primary: Record) {
    && RecordsChanged(v, disk, disk', at, companion, primary)
    && forall c :: ClusterInRange(v.g, c) && c !in v.dirs ==> ClusterAt(disk', v.g, c) == ClusterAt(disk, v.g, c)
  }

  lemma FenceKeepsChain(v: Volume, logical: Disk, fat: seq<u32>, claims: Claims, due: seq<nat>, at: Slot,
                        r: Record, chain: seq<u32>)
    requires v.Holds(logical) && |fat| == v.g.fatSectors * ENTRIES_PER_SECTOR && v.IsPair(at)
    requires ChainReady(v, logical, fat, claims, due, Second(at), chain)
    ensures ChainReady(v, WithRecordAt(v, logical, at, r), fat, claims, due, Second(at), chain)
  {
    RecordLanded(v, logical, at, r);
  }

  lemma LivePublishReady(op: Op, start: Disk, fenced: Disk, settled: Disk, fat: seq<u32>, claims: Claims,
                         p: Primary, chain: seq<u32>)
    requires op.Valid() && op.v.Holds(start) && |fat| == op.v.g.fatSectors * ENTRIES_PER_SECTOR
    requires Live(op, settled, settled, fat, claims)
    requires Encodable(p) && p.attributes == ATTRIBUTE_REGULAR && Backs(fat, op.v.g, p, chain)
    requires fenced == WithRecordAt(op.v, start, op.target, CompanionBytes(p.name, false))
    requires TableOnly(op.v, fenced, settled, fat)
    requires Second(op.target) in claims && ClusterSet(chain) <= claims[Second(op.target)]
    requires FileOf(Some(p), fat, start, op.v.g) == op.next && OldStillStands(op, start, fat)
    ensures RecordAt(settled, op.v.g, op.target) == CompanionBytes(p.name, false)
    ensures Covered(fat, op.v.g, claims, Second(op.target), PrimaryBytes(p))
    ensures FileOf(Some(p), fat, settled, op.v.g) == op.next && OldStillStands(op, settled, fat)
  {
    hide PrimaryBytes, CompanionBytes, DecodePrimary, FatEntry, ClusterAt;
    var v := op.v;
    RecordLanded(v, start, op.target, CompanionBytes(p.name, false));
    PrimaryRoundTrip(p);
    var claim := claims[Second(op.target)];
    forall c | c in claim && ClusterInRange(v.g, c) ensures ClusterAt(settled, v.g, c) == ClusterAt(start, v.g, c) {
      assert Claimed(claims, c) && c !in v.dirs && c != op.target.cluster;
    }
    assert forall i :: 0 <= i < |chain| ==> chain[i] in claim;
    FileCarriesOver(v, p, claim, fat, start, fat, settled);
    var r := RecordAt(settled, v.g, Second(op.target));
    assert v.IsSlot(Second(op.target)) && r == RecordAt(start, v.g, Second(op.target));
    if FilePrimary(r).Some? {
      assert Covered(fat, v.g, claims, Second(op.target), r);
      FileCarriesOver(v, FilePrimary(r).value, claim, fat, start, fat, settled);
    }
  }

  lemma CommitEffect(v: Volume, start: Disk, fenced: Disk, settled: Disk, fat: seq<u32>, at: Slot, p: Primary)
    requires v.Holds(start) && v.IsPair(at)
    requires fenced == WithRecordAt(v, start, at, CompanionBytes(p.name, false)) && TableOnly(v, fenced, settled, fat)
    ensures PairChanged(v, start, PairWritten(v, settled, at, CompanionBytes(p.name, true), PrimaryBytes(p)), at,
                        CompanionBytes(p.name, true), PrimaryBytes(p))
  {
    hide WithRecordAt, RecordAt, ClusterAt, FatEntry, PrimaryBytes, CompanionBytes;
    var staged := WithRecordAt(v, settled, Second(at), PrimaryBytes(p));
    RecordLanded(v, start, at, CompanionBytes(p.name, false));
    RecordLanded(v, settled, Second(at), PrimaryBytes(p));
    RecordLanded(v, staged, at, CompanionBytes(p.name, true));
    assert v.IsSlot(at) && v.IsSlot(Second(at));
  }
}
