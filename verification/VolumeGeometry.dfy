/** How a volume of a given size is divided: the smallest table that covers what it leaves over. */
module VolumeGeometry {
  import opened Bytes
  import opened Status
  import opened Layout
  import FatChain

  const MINIMUM_SECTORS: int := 50_000_000_000 / SECTOR_SIZE

  function FixedSectors(n: nat): nat {
    SUPERBLOCK_SECTORS + n + REGISTRY_SECTORS
  }

  /** Clusters that are left when the table takes `n` sectors. */
  function Clusters(total: nat, n: nat): nat
    requires FixedSectors(n) <= total
  {
    (total - FixedSectors(n)) / SECTORS_PER_CLUSTER
  }

  /** A table of `n` sectors has an entry for every cluster it leaves, and two to spare. */
  predicate Covers(total: nat, n: nat) {
    n >= 1 && FixedSectors(n) < total && Clusters(total, n) + 2 <= n * ENTRIES_PER_SECTOR
  }

  ghost predicate IsLeast(total: nat, n: nat) {
    Covers(total, n) && forall m :: 1 <= m < n ==> !Covers(total, m)
  }

  /** The one division that a volume of this size has. */
  ghost predicate GeometryFor(total: nat, g: Geometry) {
    && total >= MINIMUM_SECTORS && g.totalSectors == total && IsLeast(total, g.fatSectors)
    && g.clusterCount == Clusters(total, g.fatSectors) && 0 < g.clusterCount <= FatChain.MAX_DATA_CLUSTER - 1
  }

  lemma LeastUnique(total: nat, a: nat, b: nat)
    requires IsLeast(total, a) && IsLeast(total, b)
    ensures a == b
  {
    assert a < b ==> !Covers(total, a);
    assert b < a ==> !Covers(total, b);
  }

  lemma GeometryUnique(total: nat, g: Geometry, h: Geometry)
    requires GeometryFor(total, g) && GeometryFor(total, h)
    ensures g == h
  {
    LeastUnique(total, g.fatSectors, h.fatSectors);
  }

  /** Contiguous, in bounds, and wasting less than one cluster. */
  lemma GeometryFits(total: nat, g: Geometry)
    requires GeometryFor(total, g)
    ensures g.Valid() && g.fatSectors < 0xffff_fffe
    ensures 0 <= total - (g.DataStart() + g.clusterCount * SECTORS_PER_CLUSTER) < SECTORS_PER_CLUSTER
  {
    if g.fatSectors > 1 {
      assert !Covers(total, g.fatSectors - 1);
    }
  }

  lemma CoversMonotone(total: nat, a: nat, b: nat)
    requires Covers(total, a) && a <= b && FixedSectors(b) < total
    ensures Covers(total, b)
  {}

  /** The binary search for the least covering table. */
  method FindFatSectors(total: u64) returns (low: nat)
    requires total >= MINIMUM_SECTORS
    ensures IsLeast(total, low)
  {
    low := 1;
    var high: nat := (total / SECTORS_PER_CLUSTER + 2 + (ENTRIES_PER_SECTOR - 1)) / ENTRIES_PER_SECTOR;
    while low < high
      invariant 1 <= low <= high && Covers(total, high)
      invariant forall m :: 1 <= m < low ==> !Covers(total, m)
      decreases high - low
    {
      var candidate := low + (high - low) / 2;
      if FixedSectors(candidate) >= total {
        assert false; // the search starts far below the size of the volume
      }
      var clusterCount := (total - FixedSectors(candidate)) / SECTORS_PER_CLUSTER;
      var required := (clusterCount + 2 + (ENTRIES_PER_SECTOR - 1)) / ENTRIES_PER_SECTOR;
      if required <= candidate {
        high := candidate;
      } else {
        forall m | 1 <= m <= candidate ensures !Covers(total, m) {
          if Covers(total, m) {
            CoversMonotone(total, m, candidate);
          }
        }
        low := candidate + 1;
      }
    }
  }

  method CalculateGeometry(sectorSize: nat, total: u64) returns (status: Status, g: Geometry)
    ensures status in {Ok, InvalidArgument, NoSpace, OutOfRange}
    ensures status == InvalidArgument <==> sectorSize != SECTOR_SIZE
    ensures sectorSize == SECTOR_SIZE ==> (status == NoSpace <==> total < MINIMUM_SECTORS)
    ensures status == Ok ==> GeometryFor(total, g)
    ensures status == OutOfRange ==> forall h :: !GeometryFor(total, h)
  {
    g := Geometry(0, 0, 0);
    if sectorSize != SECTOR_SIZE {
      return InvalidArgument, g;
    }
    if total < MINIMUM_SECTORS {
      return NoSpace, g;
    }
    var fatSectors := FindFatSectors(total);
    var clusterCount := Clusters(total, fatSectors);
    TooManyClusters(total, fatSectors);
    forall h | GeometryFor(total, h) ensures h == Geometry(total, fatSectors, clusterCount) {
      LeastUnique(total, h.fatSectors, fatSectors);
    }
    if fatSectors > 0xffff_ffff {
      return OutOfRange, g;
    }
    if fatSectors * ENTRIES_PER_SECTOR < clusterCount + 2 {
      assert false; // the search stops only at a table that covers
    }
    if clusterCount == 0 || clusterCount > FatChain.MAX_DATA_CLUSTER - 1 || clusterCount > 0xffff_ffff {
      return OutOfRange, g;
    }
    return Ok, Geometry(total, fatSectors, clusterCount);
  }

  /** A table too long for 32 bits comes with more clusters than a volume may have; none is impossible. */
  lemma TooManyClusters(total: nat, n: nat)
    requires total >= MINIMUM_SECTORS && IsLeast(total, n)
    ensures n > 0xffff_ffff ==> Clusters(total, n) > FatChain.MAX_DATA_CLUSTER - 1
    ensures Clusters(total, n) > 0
  {
    if n > 1 {
      assert !Covers(total, n - 1);
    }
  }

  lemma LeastByPredecessor(total: nat, n: nat)
    requires Covers(total, n) && n > 1 && !Covers(total, n - 1)
    ensures IsLeast(total, n)
  {
    forall m | 1 <= m < n ensures !Covers(total, m) {
      if Covers(total, m) {
        CoversMonotone(total, m, n - 1);
      }
    }
  }

  /** The two sizes that the format document works out. */
  lemma DocumentedSizes()
    ensures GeometryFor(97_656_250, Geometry(97_656_250, 95_271, 12_194_610))
    ensures GeometryFor(134_217_728, Geometry(134_217_728, 130_941, 16_760_336))
  {
    LeastByPredecessor(97_656_250, 95_271);
    LeastByPredecessor(134_217_728, 130_941);
  }
}
