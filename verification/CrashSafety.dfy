/**
  Crash safety of the save protocol as facts about disk images.  `durable` is what the device holds
  for good, `logical` what clients see; a power cut leaves any sector-wise mixture of the two.
  `claims` assigns every directory slot that holds a file's primary record, committed or not, the
  clusters that nothing else may touch.
*/
module CrashSafety {
  import opened Bytes
  import opened Status
  import opened Layout
  import opened Records
  import opened FatChain
  import opened BlockDevice

  type Claims = map<Slot, set<nat>>

  /** A volume and the clusters that hold directories. */
  datatype Volume = Volume(g: Geometry, dirs: set<nat>) {
    predicate Holds(disk: Disk) {
      Fits(disk, g) && forall d :: d in dirs ==> ClusterInRange(g, d)
    }

    predicate IsSlot(at: Slot) {
      at.cluster in dirs && at.index < SLOTS
    }

    /** Slots where a companion record can have its primary right behind it. */
    predicate IsPair(at: Slot) {
      at.cluster in dirs && at.index + 1 < SLOTS
    }
  }

  function Second(at: Slot): Slot {
    Slot(at.cluster, at.index + 1)
  }

  // ----- files as a reader of one image sees them ------------------------------------------------

  datatype View = NoFile | File(name: Name, content: seq<Byte>) | Damaged

  function PairAt(v: Volume, disk: Disk, at: Slot): Option<Primary>
    requires v.Holds(disk) && v.IsPair(at)
  {
    Pair(RecordAt(disk, v.g, at), RecordAt(disk, v.g, Second(at)))
  }

  ghost predicate InRange(g: Geometry, chain: seq<u32>) {
    forall i :: 0 <= i < |chain| ==> ClusterInRange(g, chain[i])
  }

  ghost function ChainBytes(disk: Disk, g: Geometry, chain: seq<u32>): (bytes: seq<Byte>)
    requires Fits(disk, g) && InRange(g, chain)
    ensures |bytes| == |chain| * CLUSTER_BYTES
  {
    if chain == [] then [] else ClusterAt(disk, g, chain[0]) + ChainBytes(disk, g, chain[1..])
  }

  /** `chain` is the chain that the table gives the file of record `p`, and it is long enough. */
  ghost predicate Backs(fat: seq<u32>, g: Geometry, p: Primary, chain: seq<u32>)
    requires g.Valid() && |fat| == g.fatSectors * ENTRIES_PER_SECTOR
  {
    && |chain| * CLUSTER_BYTES >= p.fileSize
    && if p.fileSize == 0 then chain == [] else IsChain(fat, g.Entries(), p.firstCluster, chain)
  }

  lemma BackedInRange(fat: seq<u32>, g: Geometry, p: Primary, chain: seq<u32>)
    requires g.Valid() && |fat| == g.fatSectors * ENTRIES_PER_SECTOR && Backs(fat, g, p, chain)
    ensures InRange(g, chain)
  {}

  ghost function FileOf(p: Option<Primary>, fat: seq<u32>, disk: Disk, g: Geometry): View
    requires Fits(disk, g) && |fat| == g.fatSectors * ENTRIES_PER_SECTOR
  {
    match p
    case None => NoFile
    case Some(primary) =>
      if exists chain :: Backs(fat, g, primary, chain) then
        var chain :| Backs(fat, g, primary, chain);
        BackedInRange(fat, g, primary, chain);
        File(primary.name, ChainBytes(disk, g, chain)[..primary.fileSize])
      else Damaged
  }

  lemma FileOfBacked(p: Primary, fat: seq<u32>, disk: Disk, g: Geometry, chain: seq<u32>)
    requires Fits(disk, g) && |fat| == g.fatSectors * ENTRIES_PER_SECTOR && Backs(fat, g, p, chain)
    ensures InRange(g, chain)
    ensures FileOf(Some(p), fat, disk, g) == File(p.name, ChainBytes(disk, g, chain)[..p.fileSize])
  {
    BackedInRange(fat, g, p, chain);
    forall other | Backs(fat, g, p, other) ensures other == chain {
      if p.fileSize != 0 {
        ChainUnique(fat, g.Entries(), p.firstCluster, other, chain);
      }
    }
  }

  ghost function FileAt(v: Volume, disk: Disk, at: Slot): View
    requires v.Holds(disk) && v.IsPair(at)
  {
    FileOf(PairAt(v, disk, at), Table(disk, v.g), disk, v.g)
  }

  // ----- the invariant over durable and logical image --------------------------------------------

  function FilePrimary(r: Record): Option<Primary> {
    match DecodePrimary(r)
    case Success(p) => if p.attributes == ATTRIBUTE_REGULAR then Some(p) else None
    case Failure(_) => None
  }

  ghost predicate Protected(fat: seq<u32>, g: Geometry, p: Primary, claim: set<nat>)
    requires g.Valid() && |fat| == g.fatSectors * ENTRIES_PER_SECTOR
  {
    exists chain :: Backs(fat, g, p, chain) && forall i :: 0 <= i < |chain| ==> chain[i] in claim
  }

  /** The record is no file's primary, or everything its file consists of is claimed for its slot. */
  ghost predicate Covered(fat: seq<u32>, g: Geometry, claims: Claims, at: Slot, r: Record)
    requires g.Valid() && |fat| == g.fatSectors * ENTRIES_PER_SECTOR
  {
    FilePrimary(r).Some? ==> at in claims && Protected(fat, g, FilePrimary(r).value, claims[at])
  }

  /** Table and data of a cluster read the same before and after the next barrier, and it is in use. */
  ghost predicate Stable(v: Volume, durable: Disk, logical: Disk, fat: seq<u32>, c: nat)
    requires v.Holds(durable) && v.Holds(logical) && |fat| == v.g.fatSectors * ENTRIES_PER_SECTOR
  {
    && ClusterInRange(v.g, c)
    && FatEntry(durable, v.g, c) == fat[c] == FatEntry(logical, v.g, c) && fat[c] != FREE
  }

  ghost predicate SameData(v: Volume, durable: Disk, logical: Disk, c: nat)
    requires v.Holds(durable) && v.Holds(logical) && ClusterInRange(v.g, c)
  {
    ClusterAt(durable, v.g, c) == ClusterAt(logical, v.g, c)
  }

  ghost predicate Claimed(claims: Claims, c: nat) {
    exists at :: at in claims && c in claims[at]
  }

  ghost predicate Separate(claims: Claims) {
    forall a, b :: a in claims && b in claims && a != b ==> claims[a] !! claims[b]
  }

  ghost predicate LeadsInto(fat: seq<u32>, n: nat, d: nat, dirs: set<nat>)
    requires d < |fat|
  {
    match ClassifyNext(fat[d], n)
    case Link(next) => next in dirs
    case _ => true
  }

  /** The directories' own chains lead only to directory clusters. */
  ghost predicate DirsClosed(v: Volume, fat: seq<u32>)
    requires v.g.Valid() && |fat| == v.g.fatSectors * ENTRIES_PER_SECTOR
  {
    forall d | d in v.dirs && ClusterInRange(v.g, d) :: LeadsInto(fat, v.g.Entries(), d, v.dirs)
  }

  ghost predicate NeverUsed(v: Volume, disk: Disk, at: Slot)
    requires v.Holds(disk) && v.IsSlot(at)
  {
    RecordAt(disk, v.g, at)[0] == 0
  }

  /** Past a never-used slot there are only never-used slots, in every mixture of the two images. */
  ghost predicate ZeroTails(v: Volume, durable: Disk, logical: Disk)
    requires v.Holds(durable) && v.Holds(logical)
  {
    forall a, b | v.IsSlot(a) && v.IsSlot(b) && a.cluster == b.cluster && a.index < b.index ::
      NeverUsed(v, durable, a) || NeverUsed(v, logical, a) ==>
      NeverUsed(v, durable, b) && NeverUsed(v, logical, b)
  }

  ghost predicate Guarded(v: Volume, durable: Disk, logical: Disk, fat: seq<u32>, claims: Claims) {
    && v.Holds(durable) && v.Holds(logical) && |fat| == v.g.fatSectors * ENTRIES_PER_SECTOR
    && Separate(claims) && DirsClosed(v, fat) && ZeroTails(v, durable, logical)
    && (forall d :: d in v.dirs ==> Stable(v, durable, logical, fat, d))
    && (forall c :: Claimed(claims, c) ==>
          c !in v.dirs && Stable(v, durable, logical, fat, c) && SameData(v, durable, logical, c))
    && (forall at :: v.IsSlot(at) ==>
          && Covered(fat, v.g, claims, at, RecordAt(durable, v.g, at))
          && Covered(fat, v.g, claims, at, RecordAt(logical, v.g, at)))
  }

  /** An image that a mount can take over: every file whole, no cluster owned twice. */
  ghost predicate Sound(v: Volume, disk: Disk) {
    v.Holds(disk) && exists claims :: Guarded(v, disk, disk, Table(disk, v.g), claims)
  }

  // ----- consequences for one image --------------------------------------------------------------

  /**
    The property the volume promises: no valid pair reaches a free cluster or a directory cluster,
    and no two valid pairs share a cluster.
  */
  ghost predicate NoDanglingNoSharing(v: Volume, disk: Disk)
    requires v.Holds(disk)
  {
    && (forall at, c :: v.IsPair(at) && Reaches(v, disk, at, c) ==> FatEntry(disk, v.g, c) != FREE && c !in v.dirs)
    && (forall at :: v.IsPair(at) ==> FileAt(v, disk, at) != Damaged)
    && (forall a, b, c :: v.IsPair(a) && v.IsPair(b) && Reaches(v, disk, a, c) && Reaches(v, disk, b, c) ==> a == b)
  }

  /** Cluster `c` is on the chain of the valid pair at `at`. */
  ghost predicate Reaches(v: Volume, disk: Disk, at: Slot, c: nat)
    requires v.Holds(disk) && v.IsPair(at)
  {
    && ClusterInRange(v.g, c) && PairAt(v, disk, at).Some?
    && exists chain :: Backs(Table(disk, v.g), v.g, PairAt(v, disk, at).value, chain) && c in chain
  }

  lemma SoundMeansNoDanglingNoSharing(v: Volume, disk: Disk)
    requires Sound(v, disk)
    ensures NoDanglingNoSharing(v, disk)
  {
    var claims :| Guarded(v, disk, disk, Table(disk, v.g), claims);
    forall at, c | v.IsPair(at) && Reaches(v, disk, at, c)
      ensures Second(at) in claims && c in claims[Second(at)]
      ensures FatEntry(disk, v.g, c) != FREE && c !in v.dirs
    {
      ReachedIsClaimed(v, disk, claims, at, c);
    }
    forall at | v.IsPair(at) ensures FileAt(v, disk, at) != Damaged {
      PairIsCovered(v, disk, disk, Table(disk, v.g), claims, at, disk, disk);
    }
    forall a, b, c | v.IsPair(a) && v.IsPair(b) && Reaches(v, disk, a, c) && Reaches(v, disk, b, c)
      ensures a == b
    {
      ClaimsSeparate(claims, a, b, c);
    }
  }

  lemma ClaimsSeparate(claims: Claims, a: Slot, b: Slot, c: nat)
    requires Separate(claims) && Second(a) in claims && Second(b) in claims
    requires c in claims[Second(a)] && c in claims[Second(b)]
    ensures a == b
  {}

  lemma ReachedIsClaimed(v: Volume, disk: Disk, claims: Claims, at: Slot, c: nat)
    requires v.Holds(disk) && Guarded(v, disk, disk, Table(disk, v.g), claims)
    requires v.IsPair(at) && Reaches(v, disk, at, c)
    ensures Second(at) in claims && c in claims[Second(at)]
    ensures FatEntry(disk, v.g, c) != FREE && c !in v.dirs
  {
    var p, fat := PairAt(v, disk, at).value, Table(disk, v.g);
    PairIsCovered(v, disk, disk, fat, claims, at, disk, disk);
    var chain :| Backs(fat, v.g, p, chain) && c in chain;
    var kept :| Backs(fat, v.g, p, kept) && forall i :: 0 <= i < |kept| ==> kept[i] in claims[Second(at)];
    if p.fileSize != 0 {
      ChainUnique(fat, v.g.Entries(), p.firstCluster, chain, kept);
    }
    assert Claimed(claims, c) && Stable(v, disk, disk, fat, c);
  }

  /** Whatever mixture of companion and primary a cut leaves, a pair that reads is backed by its claim. */
  lemma PairIsCovered(v: Volume, durable: Disk, logical: Disk, fat: seq<u32>, claims: Claims, at: Slot,
                      first: Disk, second: Disk)
    requires Guarded(v, durable, logical, fat, claims) && v.IsPair(at)
    requires v.Holds(first) && (second == durable || second == logical)
    ensures var p := Pair(RecordAt(first, v.g, at), RecordAt(second, v.g, Second(at)));
      p.Some? ==>
        && Second(at) in claims && Protected(fat, v.g, p.value, claims[Second(at)])
        && FileOf(p, fat, durable, v.g) != Damaged
  {
    assert v.IsSlot(Second(at));
    var p := Pair(RecordAt(first, v.g, at), RecordAt(second, v.g, Second(at)));
    if p.Some? {
      assert FilePrimary(RecordAt(second, v.g, Second(at))) == p;
      assert Covered(fat, v.g, claims, Second(at), RecordAt(second, v.g, Second(at)));
      var chain :| Backs(fat, v.g, p.value, chain);
      FileOfBacked(p.value, fat, durable, v.g, chain);
    }
  }

  // ----- power cuts ------------------------------------------------------------------------------

  lemma TornCluster(v: Volume, durable: Disk, logical: Disk, d: Disk, c: nat)
    requires v.Holds(durable) && v.Holds(logical) && Torn(durable, logical, d)
    requires ClusterInRange(v.g, c) && SameData(v, durable, logical, c)
    ensures Fits(d, v.g) && ClusterAt(d, v.g, c) == ClusterAt(durable, v.g, c)
  {
    var x, y := ClusterAt(durable, v.g, c), ClusterAt(logical, v.g, c);
    forall i | 0 <= i < CLUSTER_BYTES ensures ClusterAt(d, v.g, c)[i] == x[i] {
      var s := ClusterSector(v.g, c) + i / SECTOR_SIZE;
      assert x[i] == durable[s][i % SECTOR_SIZE] && y[i] == logical[s][i % SECTOR_SIZE];
      assert d[s] == durable[s] || d[s] == logical[s];
    }
  }

  lemma SameBytes(v: Volume, a: Disk, b: Disk, chain: seq<u32>)
    requires Fits(a, v.g) && Fits(b, v.g) && InRange(v.g, chain)
    requires forall i :: 0 <= i < |chain| ==> ClusterAt(a, v.g, chain[i]) == ClusterAt(b, v.g, chain[i])
    ensures ChainBytes(a, v.g, chain) == ChainBytes(b, v.g, chain)
  {
    if chain != [] {
      assert forall i :: 0 <= i < |chain[1..]| ==> chain[1..][i] == chain[i + 1];
      SameBytes(v, a, b, chain[1..]);
    }
  }

  /** A protected file reads the same through any table and image that agree on its claim. */
  lemma FileCarriesOver(v: Volume, p: Primary, claim: set<nat>, fat: seq<u32>, disk: Disk, fat': seq<u32>, disk': Disk)
    requires Fits(disk, v.g) && Fits(disk', v.g)
    requires |fat| == |fat'| == v.g.fatSectors * ENTRIES_PER_SECTOR
    requires Protected(fat, v.g, p, claim)
    requires forall c :: c in claim && ClusterInRange(v.g, c) ==> fat'[c] == fat[c]
    ensures Protected(fat', v.g, p, claim)
    ensures (forall c :: c in claim && ClusterInRange(v.g, c) ==>
               ClusterAt(disk', v.g, c) == ClusterAt(disk, v.g, c)) ==>
              FileOf(Some(p), fat', disk', v.g) == FileOf(Some(p), fat, disk, v.g)
  {
    var chain :| Backs(fat, v.g, p, chain) && forall i :: 0 <= i < |chain| ==> chain[i] in claim;
    BackedInRange(fat, v.g, p, chain);
    if p.fileSize != 0 {
      ChainFrame(fat, fat', v.g.Entries(), p.firstCluster, chain);
    }
    assert Backs(fat', v.g, p, chain);
    FileOfBacked(p, fat, disk, v.g, chain);
    FileOfBacked(p, fat', disk', v.g, chain);
    if forall c :: c in claim && ClusterInRange(v.g, c) ==> ClusterAt(disk', v.g, c) == ClusterAt(disk, v.g, c) {
      SameBytes(v, disk', disk, chain);
    }
  }

  lemma TornTails(v: Volume, durable: Disk, logical: Disk, d: Disk)
    requires v.Holds(durable) && v.Holds(logical) && ZeroTails(v, durable, logical) && Torn(durable, logical, d)
    ensures v.Holds(d) && ZeroTails(v, d, d)
  {
    forall a, b | v.IsSlot(a) && v.IsSlot(b) && a.cluster == b.cluster && a.index < b.index && NeverUsed(v, d, a)
      ensures NeverUsed(v, d, b)
    {
      assert RecordAt(d, v.g, a) == RecordAt(durable, v.g, a) || RecordAt(d, v.g, a) == RecordAt(logical, v.g, a);
      assert NeverUsed(v, durable, a) || NeverUsed(v, logical, a);
      assert NeverUsed(v, durable, b) && NeverUsed(v, logical, b);
    }
  }

  /** The invariant survives a power cut: the image left behind satisfies it by itself. */
  lemma CutIsGuarded(v: Volume, durable: Disk, logical: Disk, fat: seq<u32>, claims: Claims, d: Disk)
    requires Guarded(v, durable, logical, fat, claims) && Torn(durable, logical, d)
    ensures v.Holds(d) && Guarded(v, d, d, Table(d, v.g), claims)
  {
    var table := Table(d, v.g);
    forall c | Claimed(claims, c) ensures c !in v.dirs && Stable(v, d, d, table, c) {
      assert Stable(v, durable, logical, fat, c);
    }
    forall c | c in v.dirs ensures Stable(v, d, d, table, c) && table[c] == fat[c] {
      assert Stable(v, durable, logical, fat, c);
    }
    TornTails(v, durable, logical, d);
    forall at | v.IsSlot(at) ensures Covered(table, v.g, claims, at, RecordAt(d, v.g, at)) {
      var r := RecordAt(d, v.g, at);
      assert r == RecordAt(durable, v.g, at) || r == RecordAt(logical, v.g, at);
      if FilePrimary(r).Some? {
        forall c | c in claims[at] && ClusterInRange(v.g, c) ensures table[c] == fat[c] {
          assert Claimed(claims, c) && Stable(v, durable, logical, fat, c);
        }
        FileCarriesOver(v, FilePrimary(r).value, claims[at], fat, durable, table, durable);
      }
    }
  }
}
