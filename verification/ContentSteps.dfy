/**
  Saving content: what the clusters of a file must hold, how one cluster is put together from old
  content and input, and why the commit may go ahead once all of them are written.
*/
module ContentSteps {
  import opened Bytes
  import opened Status
  import opened Layout
  import opened Records
  import opened FatChain
  import opened BlockDevice
  import opened CrashSafety
  import opened CommitSteps
  import opened Quiescence
  import opened ServiceSteps
  import opened Lookup
  import Directory

  /** The first `count` clusters of the chain hold their part of `content`. */
  ghost predicate Carries(disk: Disk, g: Geometry, chain: seq<u32>, content: seq<Byte>, count: nat)
    requires Fits(disk, g)
  {
    && InRange(g, chain) && count <= |chain|
    && forall j :: 0 <= j < |content| && j / CLUSTER_BYTES < count ==>
         ClusterAt(disk, g, chain[j / CLUSTER_BYTES])[j % CLUSTER_BYTES] == content[j]
  }

  /** A cluster's worth of bytes holds part `k` of `content`. */
  ghost predicate PartOf(buffer: seq<Byte>, content: seq<Byte>, k: nat) {
    && |buffer| == CLUSTER_BYTES
    && forall j :: 0 <= j < |content| && j / CLUSTER_BYTES == k ==> buffer[j % CLUSTER_BYTES] == content[j]
  }

  lemma {:induction false} ChainByteAt(disk: Disk, g: Geometry, chain: seq<u32>, j: nat)
    requires Fits(disk, g) && InRange(g, chain) && j < |chain| * CLUSTER_BYTES
    ensures ChainBytes(disk, g, chain)[j] == ClusterAt(disk, g, chain[j / CLUSTER_BYTES])[j % CLUSTER_BYTES]
  {
    if j >= CLUSTER_BYTES {
      ChainByteAt(disk, g, chain[1..], j - CLUSTER_BYTES);
      assert chain[1..][(j - CLUSTER_BYTES) / CLUSTER_BYTES] == chain[j / CLUSTER_BYTES];
    }
  }

  lemma CarriedIsContent(disk: Disk, g: Geometry, chain: seq<u32>, content: seq<Byte>)
    requires Fits(disk, g) && Carries(disk, g, chain, content, |chain|) && |content| <= |chain| * CLUSTER_BYTES
    ensures ChainBytes(disk, g, chain)[..|content|] == content
  {
    forall j | 0 <= j < |content| ensures ChainBytes(disk, g, chain)[j] == content[j] {
      ChainByteAt(disk, g, chain, j);
    }
  }

  lemma ContentIsCarried(disk: Disk, g: Geometry, chain: seq<u32>, size: nat)
    requires Fits(disk, g) && InRange(g, chain) && size <= |chain| * CLUSTER_BYTES
    ensures Carries(disk, g, chain, ChainBytes(disk, g, chain)[..size], |chain|)
  {
    var content := ChainBytes(disk, g, chain)[..size];
    forall j | 0 <= j < size
      ensures ClusterAt(disk, g, chain[j / CLUSTER_BYTES])[j % CLUSTER_BYTES] == content[j]
    {
      ChainByteAt(disk, g, chain, j);
    }
  }

  /** Writing the next cluster of the chain completes one more part. */
  lemma CarriesStep(v: Volume, disk: Disk, disk': Disk, chain: seq<u32>, content: seq<Byte>, k: nat)
    requires k < |chain| && Distinct(chain) && v.Holds(disk) && Carries(disk, v.g, chain, content, k)
    requires DataOnly(v, disk, disk', chain[k]) && PartOf(ClusterAt(disk', v.g, chain[k]), content, k)
    ensures Carries(disk', v.g, chain, content, k + 1)
  {
    forall j | 0 <= j < |content| && j / CLUSTER_BYTES < k + 1
      ensures ClusterAt(disk', v.g, chain[j / CLUSTER_BYTES])[j % CLUSTER_BYTES] == content[j]
    {
      var i := j / CLUSTER_BYTES;
      if i < k {
        assert chain[i] != chain[k];
        assert ClusterAt(disk', v.g, chain[i]) == ClusterAt(disk, v.g, chain[i]);
      }
    }
  }

  /** Input laid over a cluster of old content, at the place where the two meet. */
  function Overlaid(buffer: seq<Byte>, input: seq<Byte>, inputStart: nat, start: nat): (r: seq<Byte>)
    requires |buffer| == CLUSTER_BYTES
    ensures |r| == CLUSTER_BYTES
  {
    var inputEnd := inputStart + |input|;
    if inputStart < start + CLUSTER_BYTES && inputEnd > start then
      var copyStart := if inputStart > start then inputStart else start;
      var copyEnd := if inputEnd < start + CLUSTER_BYTES then inputEnd else start + CLUSTER_BYTES;
      buffer[..copyStart - start] + input[copyStart - inputStart..copyEnd - inputStart] + buffer[copyEnd - start..]
    else buffer
  }

  lemma OverlaidAt(buffer: seq<Byte>, input: seq<Byte>, inputStart: nat, start: nat, m: nat)
    requires |buffer| == CLUSTER_BYTES && m < CLUSTER_BYTES
    ensures Overlaid(buffer, input, inputStart, start)[m] ==
            if inputStart <= start + m < inputStart + |input| then input[start + m - inputStart] else buffer[m]
  {}

  lemma OverlaidIsPart(buffer: seq<Byte>, kept: seq<Byte>, input: seq<Byte>, k: nat)
    requires PartOf(buffer, kept, k)
    ensures PartOf(Overlaid(buffer, input, |kept|, k * CLUSTER_BYTES), kept + input, k)
  {
    hide Overlaid;
    var r, content, start := Overlaid(buffer, input, |kept|, k * CLUSTER_BYTES), kept + input, k * CLUSTER_BYTES;
    forall j | 0 <= j < |content| && j / CLUSTER_BYTES == k ensures r[j % CLUSTER_BYTES] == content[j] {
      OverlaidAt(buffer, input, |kept|, start, j % CLUSTER_BYTES);
      assert j == start + j % CLUSTER_BYTES;
    }
  }

  /** Past the end of the old content any cluster will do. */
  lemma PastEndIsPart(buffer: seq<Byte>, kept: seq<Byte>, k: nat)
    requires |buffer| == CLUSTER_BYTES && |kept| <= k * CLUSTER_BYTES
    ensures PartOf(buffer, kept, k)
  {}

  lemma ReadIsPart(disk: Disk, g: Geometry, chain: seq<u32>, kept: seq<Byte>, k: nat)
    requires Fits(disk, g) && Carries(disk, g, chain, kept, |chain|) && k < |chain|
    ensures PartOf(ClusterAt(disk, g, chain[k]), kept, k)
  {}

  // ----- the file that is being replaced ------------------------------------------------------------

  /** The record, the chain and the content of the file that the operation found. */
  datatype OldFile = OldFile(primary: Primary, chain: seq<u32>, content: seq<Byte>)

  /** The old file is still whole, and still what the operation started from. */
  ghost predicate Stands(op: Op, logical: Disk, fat: seq<u32>, claims: Claims, f: OldFile) {
    && op.Valid() && op.v.Holds(logical) && |fat| == op.v.g.fatSectors * ENTRIES_PER_SECTOR
    && Encodable(f.primary) && f.primary.attributes == ATTRIBUTE_REGULAR
    && FilePrimary(RecordAt(logical, op.v.g, Second(op.target))) == Some(f.primary)
    && Backs(fat, op.v.g, f.primary, f.chain) && |f.content| == f.primary.fileSize
    && ClusterSet(f.chain) <= ClaimOf(claims, Second(op.target))
    && Carries(logical, op.v.g, f.chain, f.content, |f.chain|)
    && FileAt(op.v, op.start, op.target) == File(f.primary.name, f.content)
  }

  /** What a save makes of a file. */
  function Saved(before: View, bytes: seq<Byte>, append: bool): View {
    if before.File? then File(before.name, if append then before.content + bytes else bytes) else before
  }

  /** What the lookup and the walk over the table have found is the file as it stood at the start. */
  lemma OldFileFound(op: Op, logical: Disk, fat: seq<u32>, claims: Claims, p: Primary, chain: seq<u32>)
    returns (f: OldFile)
    requires op.Valid() && Quiescent(op.v, op.start, logical, fat, claims)
    requires PairAt(op.v, op.start, op.target) == PairAt(op.v, logical, op.target) == Some(p)
    requires if p.fileSize == 0 then chain == [] else IsChain(fat, op.v.g.Entries(), p.firstCluster, chain)
    ensures Stands(op, logical, fat, claims, f) && f.primary == p && f.chain == chain
  {
    var v := op.v;
    PairIsCovered(v, op.start, logical, fat, claims, op.target, logical, logical);
    var claim := claims[Second(op.target)];
    var backing :| Backs(fat, v.g, p, backing) && forall i :: 0 <= i < |backing| ==> backing[i] in claim;
    if p.fileSize != 0 {
      ChainUnique(fat, v.g.Entries(), p.firstCluster, chain, backing);
    }
    BackedInRange(fat, v.g, p, chain);
    f := OldFile(p, chain, ChainBytes(logical, v.g, chain)[..p.fileSize]);
    ContentIsCarried(logical, v.g, chain, p.fileSize);
    PairCanonical(logical, v, op.target);
    FileOfBacked(p, fat, logical, v.g, chain);
    forall c | c in claim && ClusterInRange(v.g, c) ensures ClusterAt(logical, v.g, c) == ClusterAt(op.start, v.g, c) {
      assert Claimed(claims, c) && SameData(v, op.start, logical, c);
    }
    FileCarriesOver(v, p, claim, fat, op.start, fat, logical);
    CutShows(v, op.start, logical, fat, claims, op.start, op.target);
  }

  lemma OldFileExists(op: Op, logical: Disk, fat: seq<u32>, claims: Claims, p: Primary) returns (f: OldFile)
    requires op.Valid() && Quiescent(op.v, op.start, logical, fat, claims)
    requires PairAt(op.v, op.start, op.target) == PairAt(op.v, logical, op.target) == Some(p)
    ensures Stands(op, logical, fat, claims, f) && f.primary == p
    ensures Backs(fat, op.v.g, p, f.chain) && ClusterSet(f.chain) <= ClaimOf(claims, Second(op.target))
    ensures p.firstCluster != 0 ==> p.fileSize != 0
    ensures FileAt(op.v, op.start, op.target) == File(p.name, f.content)
  {
    PairIsCovered(op.v, op.start, logical, fat, claims, op.target, logical, logical);
    var chain :| Backs(fat, op.v.g, p, chain);
    f := OldFileFound(op, logical, fat, claims, p, chain);
  }

  lemma StandsRecord(op: Op, logical: Disk, fat: seq<u32>, claims: Claims, f: OldFile)
    requires Stands(op, logical, fat, claims, f)
    ensures ValidStoredName(f.primary.name) && FilePrimary(RecordAt(logical, op.v.g, Second(op.target))).Some?
  {}

  /** Two deleted records are no pair, also after clusters were released. */
  lemma ErasedShowsNothing(v: Volume, first: Disk, disk: Disk, disk': Disk, at: Slot)
    requires RecordsChanged(v, first, disk, at, DELETED_RECORD, DELETED_RECORD)
    requires v.Holds(disk') && SameRecords(v, disk, disk')
    ensures FileAt(v, disk', at) == NoFile
  {
    assert v.IsSlot(at);
    DeadFirst(DELETED_RECORD);
  }

  /** Fence, first mark, second mark: together they replace exactly the two records. */
  lemma EraseEffect(v: Volume, first: Disk, at: Slot, fence: Record)
    requires v.Holds(first) && v.IsPair(at)
    ensures var marked := WithRecordAt(v, WithRecordAt(v, first, at, fence), at, DELETED_RECORD);
            var erased := WithRecordAt(v, marked, Second(at), DELETED_RECORD);
            RecordsChanged(v, first, erased, at, DELETED_RECORD, DELETED_RECORD)
            && RecordAt(erased, v.g, Second(at)) == DELETED_RECORD
  {
    hide WithRecordAt, RecordAt;
    var fenced := WithRecordAt(v, first, at, fence);
    var marked := WithRecordAt(v, fenced, at, DELETED_RECORD);
    RecordLanded(v, first, at, fence);
    RecordLanded(v, fenced, at, DELETED_RECORD);
    RecordLanded(v, marked, Second(at), DELETED_RECORD);
    assert v.IsSlot(at) && v.IsSlot(Second(at));
  }

  /** A change behind a fence is, all in all, the change alone. */
  lemma FencedChange(v: Volume, first: Disk, disk: Disk, at: Slot, fence: Record, companion: Record, primary: Record)
    requires v.Holds(first) && v.IsPair(at)
    requires RecordsChanged(v, WithRecordAt(v, first, at, fence), disk, at, companion, primary)
    ensures RecordsChanged(v, first, disk, at, companion, primary)
  {
    RecordLanded(v, first, at, fence);
  }

  lemma PairCanonical(disk: Disk, v: Volume, at: Slot)
    requires v.Holds(disk) && v.IsPair(at) && PairAt(v, disk, at).Some?
    ensures Encodable(PairAt(v, disk, at).value) && PairAt(v, disk, at).value.attributes == ATTRIBUTE_REGULAR
    ensures FilePrimary(RecordAt(disk, v.g, Second(at))) == PairAt(v, disk, at)
  {
    PrimaryCanonical(RecordAt(disk, v.g, Second(at)));
  }

  /** The old file stands through every change of unclaimed entries and unclaimed clusters. */
  lemma StandsKept(op: Op, logical: Disk, logical': Disk, fat: seq<u32>, fat': seq<u32>, claims: Claims, f: OldFile)
    requires Stands(op, logical, fat, claims, f) && op.v.Holds(logical') && |fat'| == |fat|
    requires RecordAt(logical', op.v.g, Second(op.target)) == RecordAt(logical, op.v.g, Second(op.target))
    requires forall c :: 0 <= c < |fat| && Claimed(claims, c) ==> fat'[c] == fat[c]
    requires forall c :: ClusterInRange(op.v.g, c) && Claimed(claims, c) ==>
             ClusterAt(logical', op.v.g, c) == ClusterAt(logical, op.v.g, c)
    ensures Stands(op, logical', fat', claims, f)
  {
    forall i | 0 <= i < |f.chain| ensures Claimed(claims, f.chain[i]) {
      assert f.chain[i] in ClusterSet(f.chain);
    }
    if f.primary.fileSize != 0 {
      ChainFrame(fat, fat', op.v.g.Entries(), f.primary.firstCluster, f.chain);
    }
    forall j | 0 <= j < |f.content|
      ensures ClusterAt(logical', op.v.g, f.chain[j / CLUSTER_BYTES])[j % CLUSTER_BYTES] == f.content[j]
    {
      assert Claimed(claims, f.chain[j / CLUSTER_BYTES]);
    }
  }

  lemma StandsOldStill(op: Op, logical: Disk, fat: seq<u32>, claims: Claims, f: OldFile)
    requires Stands(op, logical, fat, claims, f)
    ensures OldStillStands(op, logical, fat)
  {
    var r := RecordAt(logical, op.v.g, Second(op.target));
    FileOfBacked(f.primary, fat, logical, op.v.g, f.chain);
    CarriedIsContent(logical, op.v.g, f.chain, f.content);
    assert r[..11][..8][0] == r[0];
  }

  lemma StandsWhateverNext(op: Op, op': Op, logical: Disk, fat: seq<u32>, claims: Claims, f: OldFile)
    requires Stands(op, logical, fat, claims, f) && op'.Valid() && op' == op.(next := op'.next)
    ensures Stands(op', logical, fat, claims, f)
    ensures FileAt(op.v, op.start, op.target) == File(f.primary.name, f.content)
  {}

  lemma AllocationLeavesOldFile(op: Op, logical: Disk, before: seq<u32>, fat: seq<u32>, claims: Claims, due: seq<nat>,
                                f: OldFile, chain: seq<u32>)
    requires Stands(op, logical, before, claims, f) && |fat| == |before| && Reserved(op.v, fat, claims, due, chain)
    requires forall c :: 0 <= c < |fat| && c !in chain ==> fat[c] == before[c]
    ensures Stands(op, logical, fat, claims, f)
  {
    StandsKept(op, logical, logical, before, fat, claims, f);
  }

  /** An uncommitted companion in front of the old primary leaves the file's substance alone. */
  lemma FenceLeavesOldFile(op: Op, logical: Disk, fat: seq<u32>, claims: Claims, f: OldFile, companion: Record)
    requires Stands(op, logical, fat, claims, f) && op.v.Holds(logical) && op.v.IsPair(op.target)
    requires Guarded(op.v, WithRecordAt(op.v, logical, op.target, companion),
                     WithRecordAt(op.v, logical, op.target, companion), fat, claims)
    ensures Stands(op, WithRecordAt(op.v, logical, op.target, companion), fat, claims, f)
  {
    var logical' := WithRecordAt(op.v, logical, op.target, companion);
    RecordLanded(op.v, logical, op.target, companion);
    forall c | ClusterInRange(op.v.g, c) && Claimed(claims, c)
      ensures ClusterAt(logical', op.v.g, c) == ClusterAt(logical, op.v.g, c)
    {
      assert c !in op.v.dirs;
    }
    assert op.v.IsSlot(Second(op.target));
    StandsKept(op, logical, logical', fat, fat, claims, f);
  }

  lemma ReservedFacts(op: Op, logical: Disk, fat: seq<u32>, claims: Claims, due: seq<nat>, f: OldFile, chain: seq<u32>)
    requires Stands(op, logical, fat, claims, f) && Reserved(op.v, fat, claims, due, chain)
    ensures forall i :: 0 <= i < |chain| ==> !Claimed(claims, chain[i])
    ensures ClusterSet(f.chain) <= ClaimOf(claims, Second(op.target)) && Backs(fat, op.v.g, f.primary, f.chain)
    ensures f.chain != [] ==> f.primary.fileSize != 0 && f.chain[0] == f.primary.firstCluster
  {}

  lemma StandsCarries(op: Op, logical: Disk, fat: seq<u32>, claims: Claims, f: OldFile)
    requires Stands(op, logical, fat, claims, f)
    ensures Carries(logical, op.v.g, f.chain, f.content, |f.chain|)
    ensures |f.content| == f.primary.fileSize <= |f.chain| * CLUSTER_BYTES
  {}

  // ----- the clusters that are being filled ----------------------------------------------------------

  lemma NothingCarried(op: Op, logical: Disk, fat: seq<u32>, claims: Claims, due: seq<nat>, chain: seq<u32>,
                       content: seq<Byte>)
    requires op.v.Holds(logical) && |fat| == op.v.g.fatSectors * ENTRIES_PER_SECTOR
    requires Reserved(op.v, fat, claims, due, chain)
    ensures Carries(logical, op.v.g, chain, content, 0)
  {}

  lemma ReservedAt(v: Volume, fat: seq<u32>, claims: Claims, due: seq<nat>, chain: seq<u32>, k: nat)
    requires v.g.Valid() && |fat| == v.g.fatSectors * ENTRIES_PER_SECTOR
    requires Reserved(v, fat, claims, due, chain) && k < |chain|
    ensures ClusterInRange(v.g, chain[k]) && chain[k] !in v.dirs && !Claimed(claims, chain[k]) && Distinct(chain)
  {}

  lemma PartLength(buffer: seq<Byte>, content: seq<Byte>, k: nat)
    requires PartOf(buffer, content, k)
    ensures |buffer| == CLUSTER_BYTES
  {}

  /** One more cluster is written, and the old file still stands. */
  lemma ContentLanded(op: Op, logical: Disk, logical': Disk, fat: seq<u32>, claims: Claims, f: OldFile,
                      chain: seq<u32>, content: seq<Byte>, k: nat)
    requires Stands(op, logical, fat, claims, f) && k < |chain| && Distinct(chain) && !Claimed(claims, chain[k])
    requires Carries(logical, op.v.g, chain, content, k) && DataOnly(op.v, logical, logical', chain[k])
    requires PartOf(ClusterAt(logical', op.v.g, chain[k]), content, k)
    ensures Stands(op, logical', fat, claims, f) && Carries(logical', op.v.g, chain, content, k + 1)
    ensures SameRecords(op.v, logical, logical')
  {
    hide Stands;
    assert op.Valid() && op.v.Holds(logical) by { StandsHolds(op, logical, fat, claims, f); }
    CarriesStep(op.v, logical, logical', chain, content, k);
    StandsHolds(op, logical, fat, claims, f);
    assert op.v.IsSlot(Second(op.target));
    StandsKept(op, logical, logical', fat, fat, claims, f);
  }

  lemma StandsHolds(op: Op, logical: Disk, fat: seq<u32>, claims: Claims, f: OldFile)
    requires Stands(op, logical, fat, claims, f)
    ensures op.Valid() && op.v.Holds(logical) && |fat| == op.v.g.fatSectors * ENTRIES_PER_SECTOR
  {}

  function Flattened(sectors: seq<Sector>): (bytes: seq<Byte>)
    requires |sectors| == SECTORS_PER_CLUSTER
    ensures |bytes| == CLUSTER_BYTES
  {
    seq(CLUSTER_BYTES, i requires 0 <= i < CLUSTER_BYTES => sectors[i / SECTOR_SIZE][i % SECTOR_SIZE])
  }

  lemma CarriedInRange(disk: Disk, g: Geometry, chain: seq<u32>, content: seq<Byte>, k: nat)
    requires Fits(disk, g) && Carries(disk, g, chain, content, |chain|) && k < |chain|
    ensures ClusterInRange(g, chain[k])
  {}

  lemma ChunkIsContent(disk: Disk, g: Geometry, chain: seq<u32>, content: seq<Byte>, k: nat, start: nat, chunk: nat)
    requires Fits(disk, g) && Carries(disk, g, chain, content, |chain|) && k < |chain|
    requires start + chunk <= CLUSTER_BYTES && k * CLUSTER_BYTES + start + chunk <= |content|
    ensures ClusterInRange(g, chain[k])
    ensures ClusterAt(disk, g, chain[k])[start..start + chunk] ==
            content[k * CLUSTER_BYTES + start..k * CLUSTER_BYTES + start + chunk]
  {
    forall m | start <= m < start + chunk
      ensures ClusterAt(disk, g, chain[k])[m] == content[k * CLUSTER_BYTES + m]
    {
      assert (k * CLUSTER_BYTES + m) / CLUSTER_BYTES == k && (k * CLUSTER_BYTES + m) % CLUSTER_BYTES == m;
    }
  }

  lemma FlattenedIsCluster(disk: Disk, g: Geometry, c: nat, sectors: seq<Sector>)
    requires Fits(disk, g) && ClusterInRange(g, c) && |sectors| == SECTORS_PER_CLUSTER
    requires forall i :: 0 <= i < SECTORS_PER_CLUSTER ==> sectors[i] == disk[ClusterSector(g, c) + i]
    ensures Flattened(sectors) == ClusterAt(disk, g, c)
  {
    forall i | 0 <= i < CLUSTER_BYTES ensures Flattened(sectors)[i] == ClusterAt(disk, g, c)[i] {
      assert sectors[i / SECTOR_SIZE] == disk[ClusterSector(g, c) + i / SECTOR_SIZE];
    }
  }

  // ----- the file that takes its place ---------------------------------------------------------------

  /** Everything the commit of `p` over `chain` asks for. */
  ghost predicate CommitReady(op: Op, logical: Disk, fat: seq<u32>, claims: Claims, due: seq<nat>, p: Primary,
                              chain: seq<u32>) {
    && op.Valid() && op.v.Holds(logical) && |fat| == op.v.g.fatSectors * ENTRIES_PER_SECTOR
    && Encodable(p) && p.attributes == ATTRIBUTE_REGULAR && Backs(fat, op.v.g, p, chain)
    && ChainReady(op.v, logical, fat, claims, due, Second(op.target), chain)
    && FileOf(Some(p), fat, logical, op.v.g) == op.next && OldStillStands(op, logical, fat)
  }

  lemma SaveReady(op: Op, logical: Disk, fat: seq<u32>, claims: Claims, due: seq<nat>, f: OldFile,
                  chain: seq<u32>, content: seq<Byte>)
    requires Stands(op, logical, fat, claims, f) && op.next == File(f.primary.name, content)
    requires Reserved(op.v, fat, claims, due, chain) && (chain == [] || due != [])
    requires |chain| == (|content| + CLUSTER_BYTES - 1) / CLUSTER_BYTES && |content| <= 0xffff_ffff
    requires Carries(logical, op.v.g, chain, content, |chain|)
    ensures CommitReady(op, logical, fat, claims, due, NewPrimary(f.primary, chain, |content|), chain)
  {
    hide ValidStoredName, ChainBytes, FileOf, FileAt, FilePrimary, OldStillStands;
    var p := NewPrimary(f.primary, chain, |content|);
    StandsOldStill(op, logical, fat, claims, f);
    FileOfBacked(p, fat, logical, op.v.g, chain);
    CarriedIsContent(logical, op.v.g, chain, content);
    forall i | 0 <= i < |chain| ensures forall b :: b in claims ==> chain[i] !in claims[b] {
      assert !Claimed(claims, chain[i]);
    }
  }

  function NewPrimary(p: Primary, chain: seq<u32>, size: u32): Primary {
    Primary(p.name, p.attributes, if chain == [] then 0 else chain[0], size)
  }

  lemma CreateReady(op: Op, logical: Disk, fat: seq<u32>, claims: Claims, due: seq<nat>, name: Name)
    requires op.Valid() && op.v.Holds(logical) && |fat| == op.v.g.fatSectors * ENTRIES_PER_SECTOR
    requires ValidStoredName(name) && op.next == File(name, [])
    requires Directory.Unused(RecordAt(logical, op.v.g, Second(op.target)))
    ensures CommitReady(op, logical, fat, claims, due, Primary(name, ATTRIBUTE_REGULAR, 0, 0), [])
  {
    var p := Primary(name, ATTRIBUTE_REGULAR, 0, 0);
    FileOfBacked(p, fat, logical, op.v.g, []);
    TaggedIsNoPrimary(RecordAt(logical, op.v.g, Second(op.target)));
  }

  lemma RenameReady(op: Op, logical: Disk, fat: seq<u32>, claims: Claims, due: seq<nat>, f: OldFile, name: Name)
    requires Stands(op, logical, fat, claims, f) && op.next == File(name, f.content) && ValidStoredName(name)
    requires Guarded(op.v, logical, logical, fat, claims)
    ensures CommitReady(op, logical, fat, claims, due, f.primary.(name := name), f.chain)
  {
    hide ValidStoredName, ChainBytes, FileOf, FileAt, FilePrimary, OldStillStands;
    var p := f.primary.(name := name);
    StandsOldStill(op, logical, fat, claims, f);
    FileOfBacked(p, fat, logical, op.v.g, f.chain);
    CarriedIsContent(logical, op.v.g, f.chain, f.content);
    forall i | 0 <= i < |f.chain|
      ensures Claimed(claims, f.chain[i]) && f.chain[i] in ClaimOf(claims, Second(op.target))
    {
      assert f.chain[i] in ClusterSet(f.chain);
    }
    forall i | 0 <= i < |f.chain| ensures Stable(op.v, logical, logical, fat, f.chain[i]) && f.chain[i] !in op.v.dirs {
      assert Claimed(claims, f.chain[i]);
    }
  }

  // ----- after the commit ----------------------------------------------------------------------------

  /** Giving up a part of the target's claim leaves an operation under way as it is. */
  lemma LiveShrinks(op: Op, disk: Disk, fat: seq<u32>, claims: Claims, chain: seq<u32>)
    requires op.Valid() && Live(op, disk, disk, fat, claims) && op.v.Holds(disk)
    requires |fat| == op.v.g.fatSectors * ENTRIES_PER_SECTOR && ClusterSet(chain) <= ClaimOf(claims, Second(op.target))
    requires var p := FilePrimary(RecordAt(disk, op.v.g, Second(op.target))); p.Some? ==>
             Backs(fat, op.v.g, p.value, chain)
    ensures Live(op, disk, disk, fat, claims[Second(op.target) := ClusterSet(chain)])
  {
    ClaimsShrink(op, disk, fat, claims, Second(op.target), chain);
    hide Ready, DirKept, Progress, FatEntry;
    var shrunk := claims[Second(op.target) := ClusterSet(chain)];
    assert forall b :: b in shrunk && b != Second(op.target) ==> b in claims && shrunk[b] == claims[b];
  }

  /** The claim shrinks to the chain the new record needs; what is left over belongs to nobody. */
  lemma ClaimSettles(op: Op, disk: Disk, fat: seq<u32>, before: Claims, claims: Claims, f: OldFile,
                     p: Primary, chain: seq<u32>)
    requires Live(op, disk, disk, fat, claims) && RecordAt(disk, op.v.g, Second(op.target)) == PrimaryBytes(p)
    requires Encodable(p) && p.attributes == ATTRIBUTE_REGULAR
    requires claims == before[Second(op.target) := ClaimOf(before, Second(op.target)) + ClusterSet(chain)]
    requires ClusterSet(f.chain) <= ClaimOf(before, Second(op.target)) && Backs(fat, op.v.g, f.primary, f.chain)
    requires forall i :: 0 <= i < |chain| ==> !Claimed(before, chain[i])
    requires Published(op, disk, fat, claims, p, chain)
    ensures Live(op, disk, disk, fat, claims[Second(op.target) := ClusterSet(chain)])
    ensures Published(op, disk, fat, claims[Second(op.target) := ClusterSet(chain)], p, chain)
    ensures f.primary.fileSize != 0 ==>
            Unclaimed(op.v, fat, claims[Second(op.target) := ClusterSet(chain)], f.primary.firstCluster)
  {
    PrimaryRoundTrip(p);
    LiveShrinks(op, disk, fat, claims, chain);
    hide Ready, DirKept, EntriesKept, MixAllowed, FilePrimary, Covered, FileOf, PairAt;
    forall c | c in f.chain ensures c !in chain {
      assert c in ClusterSet(f.chain) && Claimed(before, c);
    }
    LeftOverIsUnclaimed(op.v, disk, fat, claims, Second(op.target), f, chain);
  }

  /** A deleted pair needs no clusters at all. */
  lemma ClaimEnds(op: Op, disk: Disk, fat: seq<u32>, claims: Claims, f: OldFile)
    requires Live(op, disk, disk, fat, claims) && RecordAt(disk, op.v.g, Second(op.target)) == DELETED_RECORD
    requires ClusterSet(f.chain) <= ClaimOf(claims, Second(op.target)) && Backs(fat, op.v.g, f.primary, f.chain)
    ensures Live(op, disk, disk, fat, claims[Second(op.target) := ClusterSet([])])
    ensures f.primary.fileSize != 0 ==>
            Unclaimed(op.v, fat, claims[Second(op.target) := ClusterSet([])], f.primary.firstCluster)
  {
    TaggedIsNoPrimary(DELETED_RECORD);
    LiveShrinks(op, disk, fat, claims, []);
    hide Ready, DirKept, EntriesKept, MixAllowed, FilePrimary, Covered;
    LeftOverIsUnclaimed(op.v, disk, fat, claims, Second(op.target), f, []);
  }

  lemma LeftOverIsUnclaimed(v: Volume, disk: Disk, fat: seq<u32>, claims: Claims, at: Slot, f: OldFile, chain: seq<u32>)
    requires Guarded(v, disk, disk, fat, claims) && Backs(fat, v.g, f.primary, f.chain)
    requires ClusterSet(f.chain) <= ClaimOf(claims, at) && forall c :: c in f.chain ==> c !in chain
    ensures f.primary.fileSize != 0 ==> Unclaimed(v, fat, claims[at := ClusterSet(chain)], f.primary.firstCluster)
  {
    var shrunk := claims[at := ClusterSet(chain)];
    forall c | c in f.chain ensures !Claimed(shrunk, c) && c !in v.dirs {
      assert c in ClusterSet(f.chain) && c in claims[at];
      assert Claimed(claims, c);
      forall b | b in shrunk ensures c !in shrunk[b] {
        if b != at {
          assert claims[b] !! claims[at];
        }
      }
    }
    if f.primary.fileSize != 0 {
      forall cs: seq<u32>, i: nat | IsChain(fat, v.g.Entries(), f.primary.firstCluster, cs) && i < |cs|
        ensures !Claimed(shrunk, cs[i]) && cs[i] !in v.dirs
      {
        ChainUnique(fat, v.g.Entries(), f.primary.firstCluster, cs, f.chain);
        assert cs[i] in f.chain;
      }
    }
  }

  /** The device shows, at the target, the file of record `p` over `chain`. */
  ghost predicate Published(op: Op, disk: Disk, fat: seq<u32>, claims: Claims, p: Primary, chain: seq<u32>)
    requires op.Valid() && op.v.Holds(disk) && |fat| == op.v.g.fatSectors * ENTRIES_PER_SECTOR
  {
    && PairAt(op.v, disk, op.target) == Some(p) && Backs(fat, op.v.g, p, chain)
    && ClusterSet(chain) <= ClaimOf(claims, Second(op.target))
    && FileOf(Some(p), fat, disk, op.v.g) == op.next
  }

  lemma PublishedShows(op: Op, disk: Disk, fat: seq<u32>, claims: Claims, p: Primary, chain: seq<u32>)
    requires Live(op, disk, disk, fat, claims) && Published(op, disk, fat, claims, p, chain)
    ensures FileAt(op.v, disk, op.target) == op.next
  {
    CutShows(op.v, disk, disk, fat, claims, disk, op.target);
  }

  /** The commit has put `p` in place. */
  lemma CommitPublishes(op: Op, start: Disk, disk: Disk, fat: seq<u32>, claims: Claims, due: seq<nat>,
                        p: Primary, chain: seq<u32>)
    requires CommitReady(op, start, fat, claims, due, p, chain)
    requires PairChanged(op.v, start, disk, op.target, CompanionBytes(p.name, true), PrimaryBytes(p))
    ensures op.v.Holds(disk)
    ensures Published(op, disk, fat,
                      claims[Second(op.target) := ClaimOf(claims, Second(op.target)) + ClusterSet(chain)], p, chain)
  {
    CommittedPairReads(p);
    BackedInRange(fat, op.v.g, p, chain);
    FileOfBacked(p, fat, start, op.v.g, chain);
    FileOfBacked(p, fat, disk, op.v.g, chain);
    SameBytes(op.v, disk, start, chain);
  }

  /** Releasing other clusters leaves the published file alone. */
  lemma PublishedKept(op: Op, disk: Disk, disk': Disk, fat: seq<u32>, fat': seq<u32>, claims: Claims, p: Primary,
                      chain: seq<u32>)
    requires op.Valid() && op.v.Holds(disk) && op.v.Holds(disk')
    requires |fat| == |fat'| == op.v.g.fatSectors * ENTRIES_PER_SECTOR
    requires Published(op, disk, fat, claims, p, chain) && SameRecords(op.v, disk, disk')
    requires forall c :: 0 <= c < |fat| && Claimed(claims, c) ==> fat'[c] == fat[c]
    requires forall c :: ClusterInRange(op.v.g, c) ==> ClusterAt(disk', op.v.g, c) == ClusterAt(disk, op.v.g, c)
    ensures Published(op, disk', fat', claims, p, chain)
  {
    assert op.v.IsSlot(op.target) && op.v.IsSlot(Second(op.target));
    BackedInRange(fat, op.v.g, p, chain);
    forall i | 0 <= i < |chain| ensures Claimed(claims, chain[i]) {
      assert chain[i] in ClusterSet(chain);
    }
    if p.fileSize != 0 {
      ChainFrame(fat, fat', op.v.g.Entries(), p.firstCluster, chain);
    }
    FileOfBacked(p, fat, disk, op.v.g, chain);
    FileOfBacked(p, fat', disk', op.v.g, chain);
    SameBytes(op.v, disk', disk, chain);
  }
}
