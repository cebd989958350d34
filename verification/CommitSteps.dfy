/**
  The steps of an operation on one file.  `Progress` says what a power cut may show at this moment;
  each lemma is one kind of sector write, barrier or in-memory change that keeps it.
*/
module CommitSteps {
  import opened Bytes
  import opened Status
  import opened Layout
  import opened Records
  import opened FatChain
  import opened BlockDevice
  import opened CrashSafety

  /** One operation: the image it started from, the pair it works on and the view it aims for. */
  datatype Op = Op(v: Volume, start: Disk, target: Slot, next: View) {
    ghost predicate Valid() {
      v.Holds(start) && v.IsPair(target) && next != Damaged
    }
  }

  /** The old view or the new one or, at the target only, no file at all; everything else as before. */
  ghost predicate Allowed(op: Op, at: Slot, view: View)
    requires op.Valid() && op.v.IsPair(at)
  {
    var before := FileAt(op.v, op.start, at);
    view == before || (at == op.target && (view == NoFile || view == op.next))
  }

  ghost predicate IsTarget(op: Op, b: Slot) {
    b == op.target || b == Second(op.target)
  }

  /** What an operation leaves in the first slot of its target: what was there, a companion or a deleted mark. */
  ghost predicate FirstKept(op: Op, r: Record)
    requires op.Valid()
  {
    r == RecordAt(op.start, op.v.g, op.target) || r[0] == COMPANION_TYPE || r[0] == DELETED
  }

  /** And in the second one: what was there, a file's primary or a deleted mark. */
  ghost predicate SecondKept(op: Op, r: Record)
    requires op.Valid()
  {
    r == RecordAt(op.start, op.v.g, Second(op.target)) || FilePrimary(r).Some? || r[0] == DELETED
  }

  /** The rest of the target's directory cluster is as it was at the start. */
  ghost predicate RestKept(op: Op, disk: Disk)
    requires op.Valid() && op.v.Holds(disk)
  {
    && (forall b :: op.v.IsSlot(b) && b.cluster == op.target.cluster && !IsTarget(op, b) ==>
          RecordAt(disk, op.v.g, b) == RecordAt(op.start, op.v.g, b))
    && FirstKept(op, RecordAt(disk, op.v.g, op.target)) && SecondKept(op, RecordAt(disk, op.v.g, Second(op.target)))
  }

  /** The file of this record is backed by the same chain in both images. */
  ghost predicate SameBacking(v: Volume, a: Disk, b: Disk, p: Option<Primary>)
    requires v.Holds(a) && v.Holds(b)
  {
    p.Some? ==>
      forall chain :: Backs(Table(a, v.g), v.g, p.value, chain) <==> Backs(Table(b, v.g), v.g, p.value, chain)
  }

  /** The directories' own chains are as at the start, and every other pair keeps its record and its chain. */
  ghost predicate OthersKept(op: Op, disk: Disk)
    requires op.Valid() && op.v.Holds(disk)
  {
    && (forall c :: c in op.v.dirs ==> FatEntry(disk, op.v.g, c) == FatEntry(op.start, op.v.g, c))
    && forall at :: op.v.IsPair(at) && at != op.target ==>
         && PairAt(op.v, disk, at) == PairAt(op.v, op.start, at)
         && SameBacking(op.v, op.start, disk, PairAt(op.v, op.start, at))
  }

  /** What the documentation promises of an interrupted operation. */
  ghost predicate Atomic(op: Op, d: Disk) {
    && op.Valid() && Sound(op.v, d) && RestKept(op, d) && OthersKept(op, d)
    && forall at :: op.v.IsPair(at) ==> Allowed(op, at, FileAt(op.v, d, at))
  }

  /** Pending or not, the operation has written nothing into its directory cluster but the target's two records. */
  ghost predicate DirKept(op: Op, durable: Disk, logical: Disk)
    requires op.Valid() && op.v.Holds(durable) && op.v.Holds(logical)
  {
    RestKept(op, durable) && RestKept(op, logical)
  }

  /** Memory's table still gives directories and other files the entries that they had at the start. */
  ghost predicate EntriesKept(op: Op, fat: seq<u32>, claims: Claims)
    requires op.Valid()
  {
    && |fat| == op.v.g.fatSectors * ENTRIES_PER_SECTOR
    && (forall c :: c in op.v.dirs ==> fat[c] == FatEntry(op.start, op.v.g, c))
    && forall b, c :: b in claims && b != Second(op.target) && c in claims[b] && c < |fat| ==>
         fat[c] == FatEntry(op.start, op.v.g, c)
  }

  /** Every mixture of companion and primary that a cut could leave at `at` shows an allowed view. */
  ghost predicate MixAllowed(op: Op, durable: Disk, logical: Disk, fat: seq<u32>, at: Slot)
    requires op.Valid() && op.v.IsPair(at) && op.v.Holds(durable) && op.v.Holds(logical)
    requires |fat| == op.v.g.fatSectors * ENTRIES_PER_SECTOR
  {
    forall first, second ::
      (first == RecordAt(durable, op.v.g, at) || first == RecordAt(logical, op.v.g, at))
      && (second == RecordAt(durable, op.v.g, Second(at)) || second == RecordAt(logical, op.v.g, Second(at)))
      ==> && Allowed(op, at, FileOf(Pair(first, second), fat, durable, op.v.g))
          && (at != op.target ==> Pair(first, second) == PairAt(op.v, op.start, at))
  }

  ghost predicate Progress(op: Op, durable: Disk, logical: Disk, fat: seq<u32>, claims: Claims) {
    && op.Valid() && Guarded(op.v, durable, logical, fat, claims)
    && forall at :: op.v.IsPair(at) ==> MixAllowed(op, durable, logical, fat, at)
  }

  lemma RestSurvives(op: Op, durable: Disk, logical: Disk, d: Disk)
    requires op.Valid() && op.v.Holds(durable) && op.v.Holds(logical)
    requires DirKept(op, durable, logical) && Torn(durable, logical, d)
    ensures op.v.Holds(d) && RestKept(op, d)
  {
    forall b | op.v.IsSlot(b)
      ensures RecordAt(d, op.v.g, b) == RecordAt(durable, op.v.g, b)
              || RecordAt(d, op.v.g, b) == RecordAt(logical, op.v.g, b)
    {}
    assert op.v.IsSlot(op.target) && op.v.IsSlot(Second(op.target));
  }

  /** A power cut at any moment of progress leaves a sound image showing old or new. */
  lemma CutIsAtomic(op: Op, durable: Disk, logical: Disk, fat: seq<u32>, claims: Claims, d: Disk)
    requires Progress(op, durable, logical, fat, claims) && DirKept(op, durable, logical) && Torn(durable, logical, d)
    requires EntriesKept(op, fat, claims)
    ensures Atomic(op, d)
  {
    var v := op.v;
    RestSurvives(op, durable, logical, d);
    CutIsGuarded(v, durable, logical, fat, claims, d);
    hide Guarded, Sound, RestKept, FatEntry, PairAt, FileAt;
    DirsSurvive(v, durable, logical, fat, claims, d);
    forall at | v.IsPair(at)
      ensures Allowed(op, at, FileAt(v, d, at))
      ensures at != op.target ==>
              PairAt(v, d, at) == PairAt(v, op.start, at) && SameBacking(v, op.start, d, PairAt(v, op.start, at))
    {
      CutAtPair(op, durable, logical, fat, claims, d, at);
    }
  }

  lemma CutAtPair(op: Op, durable: Disk, logical: Disk, fat: seq<u32>, claims: Claims, d: Disk, at: Slot)
    requires Progress(op, durable, logical, fat, claims) && Torn(durable, logical, d) && op.v.Holds(d)
    requires EntriesKept(op, fat, claims) && op.v.IsPair(at)
    ensures Allowed(op, at, FileAt(op.v, d, at))
    ensures at != op.target ==>
            && PairAt(op.v, d, at) == PairAt(op.v, op.start, at)
            && SameBacking(op.v, op.start, d, PairAt(op.v, op.start, at))
  {
    hide Guarded, FileAt, Allowed, Pair, SameBacking;
    var v := op.v;
    var first, second := RecordAt(d, v.g, at), RecordAt(d, v.g, Second(at));
    assert first == RecordAt(durable, v.g, at) || first == RecordAt(logical, v.g, at);
    assert second == RecordAt(durable, v.g, Second(at)) || second == RecordAt(logical, v.g, Second(at));
    assert MixAllowed(op, durable, logical, fat, at);
    CutShows(v, durable, logical, fat, claims, d, at);
    if at != op.target {
      OtherIsBacked(op, durable, logical, fat, claims, d, at);
    }
  }

  lemma DirsSurvive(v: Volume, durable: Disk, logical: Disk, fat: seq<u32>, claims: Claims, d: Disk)
    requires Guarded(v, durable, logical, fat, claims) && Torn(durable, logical, d) && v.Holds(d)
    ensures forall c :: c in v.dirs ==> c < |fat| && FatEntry(d, v.g, c) == fat[c]
  {
    forall c | c in v.dirs ensures c < |fat| && FatEntry(d, v.g, c) == fat[c] {
      assert Stable(v, durable, logical, fat, c);
    }
  }

  /** The record that a cut leaves at a pair that reads is one whose file is claimed. */
  lemma SurvivorIsCovered(v: Volume, durable: Disk, logical: Disk, fat: seq<u32>, claims: Claims, d: Disk, at: Slot)
    requires Guarded(v, durable, logical, fat, claims) && Torn(durable, logical, d) && v.Holds(d) && v.IsPair(at)
    requires PairAt(v, d, at).Some?
    ensures Second(at) in claims && Protected(fat, v.g, PairAt(v, d, at).value, claims[Second(at)])
  {
    hide Guarded;
    var second := RecordAt(d, v.g, Second(at));
    assert second == RecordAt(durable, v.g, Second(at)) || second == RecordAt(logical, v.g, Second(at)) by {
      SurvivingRecord(v, durable, logical, fat, claims, d, Second(at));
    }
    var from := if second == RecordAt(durable, v.g, Second(at)) then durable else logical;
    PairIsCovered(v, durable, logical, fat, claims, at, d, from);
  }

  lemma SurvivingRecord(v: Volume, durable: Disk, logical: Disk, fat: seq<u32>, claims: Claims, d: Disk, at: Slot)
    requires Guarded(v, durable, logical, fat, claims) && Torn(durable, logical, d) && v.Holds(d) && v.IsSlot(at)
    ensures RecordAt(d, v.g, at) == RecordAt(durable, v.g, at) || RecordAt(d, v.g, at) == RecordAt(logical, v.g, at)
  {}

  /** A pair that the operation does not touch has the same chain in what a cut leaves as it had at the start. */
  lemma OtherIsBacked(op: Op, durable: Disk, logical: Disk, fat: seq<u32>, claims: Claims, d: Disk, at: Slot)
    requires op.Valid() && Guarded(op.v, durable, logical, fat, claims) && Torn(durable, logical, d) && op.v.Holds(d)
    requires EntriesKept(op, fat, claims) && op.v.IsPair(at) && at != op.target
    ensures SameBacking(op.v, op.start, d, PairAt(op.v, d, at))
  {
    hide PairAt, Protected, Backs, FatEntry;
    var v, p := op.v, PairAt(op.v, d, at);
    if p.Some? {
      SurvivorIsCovered(v, durable, logical, fat, claims, d, at);
      ClaimSurvives(v, durable, logical, fat, claims, d, Second(at));
      hide Guarded;
      BackingCarries(v.g, p.value, claims[Second(at)], fat, Table(d, v.g));
      BackingCarries(v.g, p.value, claims[Second(at)], fat, Table(op.start, v.g));
    }
  }

  /** Tables that agree on a file's claim give it the same chain. */
  lemma BackingCarries(g: Geometry, p: Primary, claim: set<nat>, fat: seq<u32>, fat': seq<u32>)
    requires g.Valid() && |fat| == |fat'| == g.fatSectors * ENTRIES_PER_SECTOR && Protected(fat, g, p, claim)
    requires forall c :: c in claim && ClusterInRange(g, c) ==> fat'[c] == fat[c]
    ensures forall chain :: Backs(fat, g, p, chain) <==> Backs(fat', g, p, chain)
  {
    hide IsChain;
    var kept :| Backs(fat, g, p, kept) && forall i :: 0 <= i < |kept| ==> kept[i] in claim;
    BackedInRange(fat, g, p, kept);
    if p.fileSize != 0 {
      ChainFrame(fat, fat', g.Entries(), p.firstCluster, kept);
      forall chain | Backs(fat, g, p, chain) || Backs(fat', g, p, chain) ensures chain == kept {
        if Backs(fat, g, p, chain) {
          ChainUnique(fat, g.Entries(), p.firstCluster, chain, kept);
        } else {
          ChainUnique(fat', g.Entries(), p.firstCluster, chain, kept);
        }
      }
    }
  }

  /** What a cut shows at a pair is what the surviving records mean over the stable table and data. */
  lemma CutShows(v: Volume, durable: Disk, logical: Disk, fat: seq<u32>, claims: Claims, d: Disk, at: Slot)
    requires Guarded(v, durable, logical, fat, claims) && Torn(durable, logical, d) && v.IsPair(at) && v.Holds(d)
    ensures FileAt(v, d, at) == FileOf(PairAt(v, d, at), fat, durable, v.g)
  {
    var p := PairAt(v, d, at);
    if p.Some? {
      var second := RecordAt(d, v.g, Second(at));
      var from := if second == RecordAt(durable, v.g, Second(at)) then durable else logical;
      PairIsCovered(v, durable, logical, fat, claims, at, d, from);
      ClaimSurvives(v, durable, logical, fat, claims, d, Second(at));
      FileCarriesOver(v, p.value, claims[Second(at)], fat, durable, Table(d, v.g), d);
    }
  }

  lemma ClaimSurvives(v: Volume, durable: Disk, logical: Disk, fat: seq<u32>, claims: Claims, d: Disk, at: Slot)
    requires Guarded(v, durable, logical, fat, claims) && Torn(durable, logical, d) && at in claims && v.Holds(d)
    ensures forall c :: c in claims[at] && ClusterInRange(v.g, c) ==>
            Table(d, v.g)[c] == fat[c] && ClusterAt(d, v.g, c) == ClusterAt(durable, v.g, c)
  {
    forall c | c in claims[at] && ClusterInRange(v.g, c)
      ensures Table(d, v.g)[c] == fat[c] && ClusterAt(d, v.g, c) == ClusterAt(durable, v.g, c)
    {
      assert Claimed(claims, c) && Stable(v, durable, logical, fat, c);
      TornCluster(v, durable, logical, d, c);
    }
  }

  // ----- writes that touch no record and no claimed cluster --------------------------------------

  ghost predicate SameRecords(v: Volume, a: Disk, b: Disk)
    requires v.Holds(a) && v.Holds(b)
  {
    forall at :: v.IsSlot(at) ==> RecordAt(a, v.g, at) == RecordAt(b, v.g, at)
  }

  lemma LogicalFrame(op: Op, durable: Disk, logical: Disk, logical': Disk, fat: seq<u32>, claims: Claims)
    requires Progress(op, durable, logical, fat, claims)
    requires op.v.Holds(logical') && SameRecords(op.v, logical, logical')
    requires forall c :: ClusterInRange(op.v.g, c) && (Claimed(claims, c) || c in op.v.dirs) ==>
             FatEntry(logical', op.v.g, c) == FatEntry(logical, op.v.g, c)
    requires forall c :: ClusterInRange(op.v.g, c) && Claimed(claims, c) ==>
             ClusterAt(logical', op.v.g, c) == ClusterAt(logical, op.v.g, c)
    ensures Progress(op, durable, logical', fat, claims)
  {
    hide FatEntry, ClusterAt, RecordAt, Pair, FileOf, Allowed, PairAt;
    var v := op.v;
    forall c | Claimed(claims, c)
      ensures c !in v.dirs && Stable(v, durable, logical', fat, c) && SameData(v, durable, logical', c)
    {
      assert Stable(v, durable, logical, fat, c);
    }
    forall c | c in v.dirs ensures Stable(v, durable, logical', fat, c) {
      assert Stable(v, durable, logical, fat, c);
    }
    forall at | v.IsPair(at) ensures MixAllowed(op, durable, logical', fat, at) {
      assert v.IsSlot(at) && v.IsSlot(Second(at));
      assert MixAllowed(op, durable, logical, fat, at);
    }
  }

  /** Only the data of cluster `c` changed. */
  ghost predicate DataOnly(v: Volume, logical: Disk, logical': Disk, c: nat) {
    && v.Holds(logical) && v.Holds(logical')
    && (forall e :: 0 <= e < v.g.fatSectors * ENTRIES_PER_SECTOR ==>
          FatEntry(logical', v.g, e) == FatEntry(logical, v.g, e))
    && (forall d :: ClusterInRange(v.g, d) && d != c ==> ClusterAt(logical', v.g, d) == ClusterAt(logical, v.g, d))
    && SameRecords(v, logical, logical')
  }

  lemma DataLands(v: Volume, logical: Disk, c: nat, s: nat, bytes: Sector)
    requires v.Holds(logical) && ClusterInRange(v.g, c) && InCluster(v.g, c, s) && c !in v.dirs
    ensures DataOnly(v, logical, logical[s := bytes], c)
  {
    var logical' := logical[s := bytes];
    forall at | v.IsSlot(at) ensures RecordAt(logical, v.g, at) == RecordAt(logical', v.g, at) {
      ClustersAreApart(v.g, c, at.cluster, s);
    }
    forall d | ClusterInRange(v.g, d) && d != c ensures ClusterAt(logical', v.g, d) == ClusterAt(logical, v.g, d) {
      ClustersAreApart(v.g, c, d, s);
      ClusterUntouched(v.g, logical, s, bytes, d);
    }
  }

  lemma DataOnlyStep(v: Volume, first: Disk, logical: Disk, logical': Disk, c: nat)
    requires DataOnly(v, first, logical, c) && DataOnly(v, logical, logical', c)
    ensures DataOnly(v, first, logical', c)
  {}

  /** Writing data into a cluster that nothing claims. */
  lemma DataWrite(op: Op, durable: Disk, logical: Disk, logical': Disk, fat: seq<u32>, claims: Claims, c: nat)
    requires Progress(op, durable, logical, fat, claims) && DataOnly(op.v, logical, logical', c)
    requires c !in op.v.dirs && !Claimed(claims, c)
    ensures Progress(op, durable, logical', fat, claims)
  {
    LogicalFrame(op, durable, logical, logical', fat, claims);
  }

  lemma ClusterUntouched(g: Geometry, disk: Disk, s: nat, bytes: Sector, d: nat)
    requires Fits(disk, g) && ClusterInRange(g, d) && s < |disk| && !InCluster(g, d, s)
    ensures ClusterAt(disk[s := bytes], g, d) == ClusterAt(disk, g, d)
  {
    forall i | 0 <= i < CLUSTER_BYTES
      ensures ClusterAt(disk[s := bytes], g, d)[i] == ClusterAt(disk, g, d)[i]
    {
      assert ClusterSector(g, d) + i / SECTOR_SIZE != s;
    }
  }

  lemma TableEntriesLand(g: Geometry, logical: Disk, fat: seq<u32>, k: nat, c: nat)
    requires Fits(logical, g) && |fat| == g.fatSectors * ENTRIES_PER_SECTOR && k < g.fatSectors && c < |fat|
    ensures FatEntry(logical[SUPERBLOCK_SECTORS + k := TableSector(fat, k)], g, c) ==
            if c / ENTRIES_PER_SECTOR == k then fat[c] else FatEntry(logical, g, c)
  {
    if c / ENTRIES_PER_SECTOR == k {
      TableSectorHolds(fat, k, c % ENTRIES_PER_SECTOR);
    }
  }

  lemma TableLands(v: Volume, logical: Disk, fat: seq<u32>, k: nat)
    requires v.Holds(logical) && |fat| == v.g.fatSectors * ENTRIES_PER_SECTOR && k < v.g.fatSectors
    ensures TableLanded(v, logical, fat, k, logical[SUPERBLOCK_SECTORS + k := TableSector(fat, k)])
  {
    var s, bytes := SUPERBLOCK_SECTORS + k, TableSector(fat, k);
    forall c | 0 <= c < |fat|
      ensures FatEntry(logical[s := bytes], v.g, c) ==
              if c / ENTRIES_PER_SECTOR == k then fat[c] else FatEntry(logical, v.g, c)
    {
      TableEntriesLand(v.g, logical, fat, k, c);
    }
    forall d | ClusterInRange(v.g, d) ensures ClusterAt(logical[s := bytes], v.g, d) == ClusterAt(logical, v.g, d) {
      ClusterUntouched(v.g, logical, s, bytes, d);
    }
    assert forall at :: v.IsSlot(at) ==> SlotSector(v.g, at) != s;
  }

  /** Writing a table sector from memory: claimed entries are the same in memory and on the volume. */
  lemma TableWrite(op: Op, durable: Disk, logical: Disk, logical': Disk, fat: seq<u32>, claims: Claims, k: nat)
    requires Progress(op, durable, logical, fat, claims) && k < op.v.g.fatSectors
    requires TableLanded(op.v, logical, fat, k, logical')
    ensures Progress(op, durable, logical', fat, claims)
  {
    var v := op.v;
    forall c | ClusterInRange(v.g, c) && (Claimed(claims, c) || c in v.dirs)
      ensures FatEntry(logical', v.g, c) == FatEntry(logical, v.g, c)
    {
      assert Stable(v, durable, logical, fat, c);
    }
    LogicalFrame(op, durable, logical, logical', fat, claims);
  }

  /** Table sector `k` of `logical'` holds memory's entries; all else is as in `logical`. */
  ghost predicate TableLanded(v: Volume, logical: Disk, fat: seq<u32>, k: nat, logical': Disk)
    requires v.Holds(logical) && |fat| == v.g.fatSectors * ENTRIES_PER_SECTOR
  {
    && v.Holds(logical')
    && (forall c :: 0 <= c < |fat| ==>
          FatEntry(logical', v.g, c) == if c / ENTRIES_PER_SECTOR == k then fat[c] else FatEntry(logical, v.g, c))
    && (forall c :: ClusterInRange(v.g, c) ==> ClusterAt(logical', v.g, c) == ClusterAt(logical, v.g, c))
    && SameRecords(v, logical, logical')
  }

  // ----- writes of directory records -------------------------------------------------------------

  /** `logical` with the record at `at` replaced, as the sector write does it. */
  function WithRecordAt(v: Volume, logical: Disk, at: Slot, r: Record): (disk: Disk)
    requires v.Holds(logical) && v.IsSlot(at)
    ensures v.Holds(disk)
  {
    var s := SlotSector(v.g, at);
    logical[s := WithRecord(logical[s], at.index % SLOTS_PER_SECTOR, r)]
  }

  lemma RecordLanded(v: Volume, logical: Disk, at: Slot, r: Record)
    requires v.Holds(logical) && v.IsSlot(at)
    ensures var logical' := WithRecordAt(v, logical, at, r);
      && (forall b :: v.IsSlot(b) ==> RecordAt(logical', v.g, b) == if b == at then r else RecordAt(logical, v.g, b))
      && (forall c :: 0 <= c < v.g.fatSectors * ENTRIES_PER_SECTOR ==>
            FatEntry(logical', v.g, c) == FatEntry(logical, v.g, c))
      && (forall c :: ClusterInRange(v.g, c) && c != at.cluster ==>
            ClusterAt(logical', v.g, c) == ClusterAt(logical, v.g, c))
  {
    var s := SlotSector(v.g, at);
    var sector := WithRecord(logical[s], at.index % SLOTS_PER_SECTOR, r);
    forall b | v.IsSlot(b)
      ensures RecordAt(logical[s := sector], v.g, b) == if b == at then r else RecordAt(logical, v.g, b)
    {
      ClustersAreApart(v.g, at.cluster, b.cluster, s);
    }
    forall c | ClusterInRange(v.g, c) && c != at.cluster
      ensures ClusterAt(logical[s := sector], v.g, c) == ClusterAt(logical, v.g, c)
    {
      ClustersAreApart(v.g, at.cluster, c, s);
      ClusterUntouched(v.g, logical, s, sector, c);
    }
  }

  /** The pair slots that overlap the target hold no file at the start, so none may appear there. */
  ghost predicate NeighboursFree(op: Op)
    requires op.Valid()
  {
    forall at :: op.v.IsPair(at) && (Second(at) == op.target || at == Second(op.target)) ==>
      FileAt(op.v, op.start, at) == NoFile
  }

  /** Every slot in front of `at` has been used, in both images. */
  ghost predicate FilledBefore(v: Volume, durable: Disk, logical: Disk, at: Slot)
    requires v.Holds(durable) && v.Holds(logical)
  {
    forall b :: v.IsSlot(b) && b.cluster == at.cluster && b.index < at.index ==>
      !NeverUsed(v, durable, b) && !NeverUsed(v, logical, b)
  }

  /** Replacing the target's companion by another companion or a deleted mark. */
  lemma CompanionWrite(op: Op, durable: Disk, logical: Disk, fat: seq<u32>, claims: Claims, r: Record)
    requires Progress(op, durable, logical, fat, claims) && NeighboursFree(op)
    requires FilledBefore(op.v, durable, logical, op.target)
    requires r[0] == COMPANION_TYPE || r[0] == DELETED
    requires forall second ::
      second == RecordAt(durable, op.v.g, Second(op.target)) || second == RecordAt(logical, op.v.g, Second(op.target))
      ==> Allowed(op, op.target, FileOf(Pair(r, second), fat, durable, op.v.g))
    ensures Progress(op, durable, WithRecordAt(op.v, logical, op.target, r), fat, claims)
  {
    var v, logical' := op.v, WithRecordAt(op.v, logical, op.target, r);
    TaggedIsNoPrimary(r);
    RecordStaysGuarded(v, durable, logical, fat, claims, op.target, r);
    RecordLanded(v, logical, op.target, r);
    forall at | v.IsPair(at) ensures MixAllowed(op, durable, logical', fat, at) {
      assert MixAllowed(op, durable, logical, fat, at);
      if at == op.target {
        MixWithFirst(op, durable, logical, logical', fat, r);
      } else if Second(at) == op.target {
        MixWithDeadSecond(op, durable, logical, logical', fat, at);
      } else {
        MixFrame(op, durable, logical, logical', fat, at);
      }
    }
  }

  lemma MixFrame(op: Op, durable: Disk, logical: Disk, logical': Disk, fat: seq<u32>, at: Slot)
    requires op.Valid() && op.v.IsPair(at)
    requires op.v.Holds(durable) && op.v.Holds(logical) && op.v.Holds(logical')
    requires |fat| == op.v.g.fatSectors * ENTRIES_PER_SECTOR && MixAllowed(op, durable, logical, fat, at)
    requires RecordAt(logical', op.v.g, at) == RecordAt(logical, op.v.g, at)
    requires RecordAt(logical', op.v.g, Second(at)) == RecordAt(logical, op.v.g, Second(at))
    ensures MixAllowed(op, durable, logical', fat, at)
  {}

  /** A companion or deleted mark written behind another slot pairs with nothing there. */
  lemma MixWithDeadSecond(op: Op, durable: Disk, logical: Disk, logical': Disk, fat: seq<u32>, at: Slot)
    requires op.Valid() && op.v.IsPair(at) && FileAt(op.v, op.start, at) == NoFile
    requires op.v.Holds(durable) && op.v.Holds(logical) && op.v.Holds(logical')
    requires |fat| == op.v.g.fatSectors * ENTRIES_PER_SECTOR && MixAllowed(op, durable, logical, fat, at)
    requires RecordAt(logical', op.v.g, at) == RecordAt(logical, op.v.g, at)
    requires RecordAt(logical', op.v.g, Second(at))[0] in {COMPANION_TYPE, DELETED}
    ensures MixAllowed(op, durable, logical', fat, at)
  {
    var r := RecordAt(logical', op.v.g, Second(at));
    forall first: Record ensures Pair(first, r) == None {
      OnlyPrimariesEndPairs(first, r);
    }
  }

  /** A primary or deleted mark written in front of another slot pairs with nothing there. */
  lemma MixWithDeadFirst(op: Op, durable: Disk, logical: Disk, logical': Disk, fat: seq<u32>, at: Slot)
    requires op.Valid() && op.v.IsPair(at) && FileAt(op.v, op.start, at) == NoFile
    requires op.v.Holds(durable) && op.v.Holds(logical) && op.v.Holds(logical')
    requires |fat| == op.v.g.fatSectors * ENTRIES_PER_SECTOR && MixAllowed(op, durable, logical, fat, at)
    requires RecordAt(logical', op.v.g, at)[0] != COMPANION_TYPE
    requires RecordAt(logical', op.v.g, Second(at)) == RecordAt(logical, op.v.g, Second(at))
    ensures MixAllowed(op, durable, logical', fat, at)
  {
    var r := RecordAt(logical', op.v.g, at);
    forall second: Record ensures Pair(r, second) == None {
      OnlyCompanionsStartPairs(r, second);
    }
  }

  lemma MixWithFirst(op: Op, durable: Disk, logical: Disk, logical': Disk, fat: seq<u32>, r: Record)
    requires op.Valid() && op.v.Holds(durable) && op.v.Holds(logical) && op.v.Holds(logical')
    requires |fat| == op.v.g.fatSectors * ENTRIES_PER_SECTOR && MixAllowed(op, durable, logical, fat, op.target)
    requires RecordAt(logical', op.v.g, op.target) == r
    requires RecordAt(logical', op.v.g, Second(op.target)) == RecordAt(logical, op.v.g, Second(op.target))
    requires forall second ::
      second == RecordAt(durable, op.v.g, Second(op.target)) || second == RecordAt(logical, op.v.g, Second(op.target))
      ==> Allowed(op, op.target, FileOf(Pair(r, second), fat, durable, op.v.g))
    ensures MixAllowed(op, durable, logical', fat, op.target)
  {}

  /** Replacing the target's primary by a record whose file, if any, is claimed, or a deleted mark. */
  lemma PrimaryWrite(op: Op, durable: Disk, logical: Disk, fat: seq<u32>, claims: Claims, r: Record)
    requires Progress(op, durable, logical, fat, claims) && NeighboursFree(op)
    requires FilledBefore(op.v, durable, logical, Second(op.target)) && r[0] != 0
    requires r[0] != COMPANION_TYPE && Covered(fat, op.v.g, claims, Second(op.target), r)
    requires forall first ::
      first == RecordAt(durable, op.v.g, op.target) || first == RecordAt(logical, op.v.g, op.target)
      ==> Allowed(op, op.target, FileOf(Pair(first, r), fat, durable, op.v.g))
    ensures Progress(op, durable, WithRecordAt(op.v, logical, Second(op.target), r), fat, claims)
  {
    var v, logical' := op.v, WithRecordAt(op.v, logical, Second(op.target), r);
    RecordStaysGuarded(v, durable, logical, fat, claims, Second(op.target), r);
    RecordLanded(v, logical, Second(op.target), r);
    forall at | v.IsPair(at) ensures MixAllowed(op, durable, logical', fat, at) {
      assert MixAllowed(op, durable, logical, fat, at);
      if at == op.target {
        MixWithSecond(op, durable, logical, logical', fat, r);
      } else if at == Second(op.target) {
        MixWithDeadFirst(op, durable, logical, logical', fat, at);
      } else {
        MixFrame(op, durable, logical, logical', fat, at);
      }
    }
  }

  lemma MixWithSecond(op: Op, durable: Disk, logical: Disk, logical': Disk, fat: seq<u32>, r: Record)
    requires op.Valid() && op.v.Holds(durable) && op.v.Holds(logical) && op.v.Holds(logical')
    requires |fat| == op.v.g.fatSectors * ENTRIES_PER_SECTOR && MixAllowed(op, durable, logical, fat, op.target)
    requires RecordAt(logical', op.v.g, op.target) == RecordAt(logical, op.v.g, op.target)
    requires RecordAt(logical', op.v.g, Second(op.target)) == r
    requires forall first ::
      first == RecordAt(durable, op.v.g, op.target) || first == RecordAt(logical, op.v.g, op.target)
      ==> Allowed(op, op.target, FileOf(Pair(first, r), fat, durable, op.v.g))
    ensures MixAllowed(op, durable, logical', fat, op.target)
  {}

  lemma UsedKeepsTails(v: Volume, durable: Disk, logical: Disk, logical': Disk, at: Slot)
    requires v.Holds(durable) && v.Holds(logical) && v.Holds(logical') && v.IsSlot(at)
    requires ZeroTails(v, durable, logical) && FilledBefore(v, durable, logical, at)
    requires forall b :: v.IsSlot(b) ==> NeverUsed(v, logical', b) == (b != at && NeverUsed(v, logical, b))
    ensures ZeroTails(v, durable, logical')
  {}

  /** Writing a covered record into a used or first unused slot keeps the invariant. */
  lemma RecordStaysGuarded(v: Volume, durable: Disk, logical: Disk, fat: seq<u32>, claims: Claims, at: Slot, r: Record)
    requires Guarded(v, durable, logical, fat, claims) && v.IsSlot(at)
    requires FilledBefore(v, durable, logical, at) && r[0] != 0 && Covered(fat, v.g, claims, at, r)
    ensures Guarded(v, durable, WithRecordAt(v, logical, at, r), fat, claims)
  {
    var logical' := WithRecordAt(v, logical, at, r);
    RecordLanded(v, logical, at, r);
    forall b | v.IsSlot(b) ensures NeverUsed(v, logical', b) == (b != at && NeverUsed(v, logical, b)) {
      assert RecordAt(logical', v.g, b) == if b == at then r else RecordAt(logical, v.g, b);
    }
    UsedKeepsTails(v, durable, logical, logical', at);
    forall c | Claimed(claims, c) || c in v.dirs ensures Stable(v, durable, logical', fat, c) {
      assert Stable(v, durable, logical, fat, c);
    }
    forall c | Claimed(claims, c) ensures c !in v.dirs && SameData(v, durable, logical', c) {
      assert Stable(v, durable, logical, fat, c) && SameData(v, durable, logical, c);
    }
  }

  // ----- barriers and changes of memory ----------------------------------------------------------

  lemma BarrierDone(op: Op, durable: Disk, logical: Disk, fat: seq<u32>, claims: Claims)
    requires Progress(op, durable, logical, fat, claims)
    ensures Progress(op, logical, logical, fat, claims)
  {
    var v := op.v;
    forall c | Claimed(claims, c) || c in v.dirs ensures Stable(v, logical, logical, fat, c) {
      assert Stable(v, durable, logical, fat, c);
    }
    forall c | Claimed(claims, c) ensures c !in v.dirs && SameData(v, logical, logical, c) {
      assert Stable(v, durable, logical, fat, c);
    }
    forall at | v.IsPair(at) ensures MixAllowed(op, logical, logical, fat, at) {
      assert MixAllowed(op, durable, logical, fat, at);
      var p := PairAt(v, logical, at);
      if p.Some? {
        PairIsCovered(v, durable, logical, fat, claims, at, logical, logical);
        forall c | c in claims[Second(at)] && ClusterInRange(v.g, c)
          ensures ClusterAt(logical, v.g, c) == ClusterAt(durable, v.g, c)
        {
          assert Claimed(claims, c) && SameData(v, durable, logical, c);
        }
        FileCarriesOver(v, p.value, claims[Second(at)], fat, durable, fat, logical);
      }
    }
  }

  /** Changes of entries that nobody claims leave the others' entries as they were at the start. */
  lemma EntriesFrame(op: Op, fat: seq<u32>, claims: Claims, fat': seq<u32>)
    requires op.Valid() && EntriesKept(op, fat, claims) && |fat'| == |fat|
    requires forall c :: 0 <= c < |fat| && (Claimed(claims, c) || c in op.v.dirs) ==> fat'[c] == fat[c]
    ensures EntriesKept(op, fat', claims)
  {
    hide FatEntry;
    forall b, c | b in claims && b != Second(op.target) && c in claims[b] && c < |fat|
      ensures fat'[c] == FatEntry(op.start, op.v.g, c)
    {
      assert Claimed(claims, c);
    }
  }

  /** Memory entries of unclaimed clusters may change: allocation before, release after the commit. */
  lemma TableChange(op: Op, durable: Disk, logical: Disk, fat: seq<u32>, claims: Claims, fat': seq<u32>)
    requires Progress(op, durable, logical, fat, claims) && |fat'| == |fat|
    requires forall c :: 0 <= c < |fat| && (Claimed(claims, c) || c in op.v.dirs) ==> fat'[c] == fat[c]
    ensures Progress(op, durable, logical, fat', claims)
    ensures forall at :: op.v.IsPair(at) && PairAt(op.v, durable, at).Some? ==>
            FileOf(PairAt(op.v, durable, at), fat', durable, op.v.g) ==
                FileOf(PairAt(op.v, durable, at), fat, durable, op.v.g)
  {
    hide FatEntry, ClusterAt, RecordAt, Allowed, Protected, FilePrimary, Pair, MixAllowed, FileOf, Covered;
    var v := op.v;
    forall c | Claimed(claims, c) || c in v.dirs ensures Stable(v, durable, logical, fat', c) {
      assert Stable(v, durable, logical, fat, c);
    }
    forall at, r | at in claims && FilePrimary(r).Some? && Covered(fat, v.g, claims, at, r)
      ensures Covered(fat', v.g, claims, at, r)
      ensures FileOf(FilePrimary(r), fat', durable, v.g) == FileOf(FilePrimary(r), fat, durable, v.g)
    {
      CoveredKept(op, durable, logical, fat, claims, fat', at, r);
    }
    forall at | v.IsSlot(at)
      ensures Covered(fat', v.g, claims, at, RecordAt(durable, v.g, at))
      ensures Covered(fat', v.g, claims, at, RecordAt(logical, v.g, at))
    {
      assert Covered(fat, v.g, claims, at, RecordAt(durable, v.g, at));
      assert Covered(fat, v.g, claims, at, RecordAt(logical, v.g, at));
      NoPrimaryIsCovered(fat', v.g, claims, at, RecordAt(durable, v.g, at));
      NoPrimaryIsCovered(fat', v.g, claims, at, RecordAt(logical, v.g, at));
      CoveredIsClaimed(fat, v.g, claims, at, RecordAt(durable, v.g, at));
      CoveredIsClaimed(fat, v.g, claims, at, RecordAt(logical, v.g, at));
    }
    forall at | v.IsPair(at) ensures MixAllowed(op, durable, logical, fat', at) {
      MixKept(op, durable, logical, fat, claims, fat', at);
    }
    forall at | v.IsPair(at) && PairAt(v, durable, at).Some?
      ensures FileOf(PairAt(v, durable, at), fat', durable, v.g) == FileOf(PairAt(v, durable, at), fat, durable, v.g)
    {
      var second := RecordAt(durable, v.g, Second(at));
      assert v.IsSlot(Second(at));
      PairIsPrimary(RecordAt(durable, v.g, at), second);
      CoveredIsClaimed(fat, v.g, claims, Second(at), second);
    }
  }

  /** A table change outside the claims leaves a covered record covered, with the same content. */
  lemma CoveredKept(op: Op, durable: Disk, logical: Disk, fat: seq<u32>, claims: Claims, fat': seq<u32>, at: Slot,
                    r: Record)
    requires Progress(op, durable, logical, fat, claims) && |fat'| == |fat|
    requires forall c :: 0 <= c < |fat| && (Claimed(claims, c) || c in op.v.dirs) ==> fat'[c] == fat[c]
    requires at in claims && FilePrimary(r).Some? && Covered(fat, op.v.g, claims, at, r)
    ensures Covered(fat', op.v.g, claims, at, r)
    ensures FileOf(FilePrimary(r), fat', durable, op.v.g) == FileOf(FilePrimary(r), fat, durable, op.v.g)
  {
    hide FatEntry, ClusterAt, RecordAt, Allowed, Protected;
    var v := op.v;
    forall c | c in claims[at] && ClusterInRange(v.g, c) ensures fat'[c] == fat[c] {
      assert Claimed(claims, c);
    }
    FileCarriesOver(v, FilePrimary(r).value, claims[at], fat, durable, fat', durable);
  }

  lemma NoPrimaryIsCovered(fat: seq<u32>, g: Geometry, claims: Claims, at: Slot, r: Record)
    requires g.Valid() && |fat| == g.fatSectors * ENTRIES_PER_SECTOR
    ensures FilePrimary(r) == None ==> Covered(fat, g, claims, at, r)
  {}

  lemma CoveredIsClaimed(fat: seq<u32>, g: Geometry, claims: Claims, at: Slot, r: Record)
    requires g.Valid() && |fat| == g.fatSectors * ENTRIES_PER_SECTOR && Covered(fat, g, claims, at, r)
    ensures FilePrimary(r).Some? ==> at in claims
  {}

  lemma PairIsPrimary(first: Record, second: Record)
    ensures Pair(first, second).Some? ==> FilePrimary(second) == Pair(first, second)
  {}

  lemma MixKept(op: Op, durable: Disk, logical: Disk, fat: seq<u32>, claims: Claims, fat': seq<u32>, at: Slot)
    requires Progress(op, durable, logical, fat, claims) && |fat'| == |fat| && op.v.IsPair(at)
    requires forall r | FilePrimary(r).Some? && Second(at) in claims && Covered(fat, op.v.g, claims, Second(at), r) ::
             FileOf(FilePrimary(r), fat', durable, op.v.g) == FileOf(FilePrimary(r), fat, durable, op.v.g)
    ensures MixAllowed(op, durable, logical, fat', at)
  {
    hide FatEntry, ClusterAt, RecordAt, Allowed, Protected, FilePrimary, Pair, Covered;
    var v := op.v;
    assert v.IsSlot(Second(at)) && MixAllowed(op, durable, logical, fat, at);
    forall first, second |
      (first == RecordAt(durable, v.g, at) || first == RecordAt(logical, v.g, at))
      && (second == RecordAt(durable, v.g, Second(at)) || second == RecordAt(logical, v.g, Second(at)))
      ensures Allowed(op, at, FileOf(Pair(first, second), fat', durable, v.g))
    {
      if Pair(first, second).Some? {
        PairIsPrimary(first, second);
        assert Covered(fat, v.g, claims, Second(at), second);
        CoveredIsClaimed(fat, v.g, claims, Second(at), second);
      }
    }
  }
}
