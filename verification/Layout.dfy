/**
  Where things lie on the volume: the table, the directory slots and the data clusters as
  functions of the raw sectors, and what writing one sector does to each of them.
*/
module Layout {
  import opened Bytes
  import FatChain
  import opened Records

  const SUPERBLOCK_SECTORS := 2
  const REGISTRY_SECTORS := 4096
  const ENTRIES_PER_SECTOR := 128
  const SLOTS_PER_SECTOR := 16
  const SLOTS := 128 // directory slots in one cluster
  const SECTORS_PER_CLUSTER := 8
  const CLUSTER_BYTES := 4096

  datatype Geometry = Geometry(totalSectors: nat, fatSectors: nat, clusterCount: nat) {
    function DataStart(): nat {
      SUPERBLOCK_SECTORS + fatSectors + REGISTRY_SECTORS
    }

    function Entries(): nat {
      clusterCount + 2
    }

    predicate Valid() {
      && 0 < clusterCount <= FatChain.MAX_DATA_CLUSTER - 1
      && Entries() <= fatSectors * ENTRIES_PER_SECTOR
      && DataStart() + clusterCount * SECTORS_PER_CLUSTER <= totalSectors
    }
  }

  predicate Fits(disk: Disk, g: Geometry) {
    g.Valid() && |disk| == g.totalSectors
  }

  predicate ClusterInRange(g: Geometry, c: int) {
    2 <= c < g.Entries()
  }

  function ClusterSector(g: Geometry, c: nat): nat
    requires ClusterInRange(g, c)
  {
    g.DataStart() + (c - 2) * SECTORS_PER_CLUSTER
  }

  /** All sectors of a cluster lie on the volume. */
  lemma ClusterInside(g: Geometry, c: nat)
    requires g.Valid() && ClusterInRange(g, c)
    ensures ClusterSector(g, c) + SECTORS_PER_CLUSTER <= g.totalSectors
  {}

  // ----- the table -----------------------------------------------------------------------------

  function EntryOf(sector: Sector, k: nat): u32
    requires k < ENTRIES_PER_SECTOR
  {
    ReadLe32(sector[4 * k..4 * k + 4])
  }

  function FatEntry(disk: Disk, g: Geometry, c: nat): u32
    requires Fits(disk, g) && c < g.fatSectors * ENTRIES_PER_SECTOR
  {
    EntryOf(disk[SUPERBLOCK_SECTORS + c / ENTRIES_PER_SECTOR], c % ENTRIES_PER_SECTOR)
  }

  /** The whole table as the memory copy holds it. */
  function Table(disk: Disk, g: Geometry): (fat: seq<u32>)
    requires Fits(disk, g)
    ensures |fat| == g.fatSectors * ENTRIES_PER_SECTOR
    ensures forall c :: 0 <= c < |fat| ==> fat[c] == FatEntry(disk, g, c)
  {
    seq(g.fatSectors * ENTRIES_PER_SECTOR,
        c requires 0 <= c < g.fatSectors * ENTRIES_PER_SECTOR => FatEntry(disk, g, c))
  }

  /** The bytes of one table sector, written from a memory table. */
  function TableSector(fat: seq<u32>, s: nat): (sector: Sector)
    requires (s + 1) * ENTRIES_PER_SECTOR <= |fat|
  {
    seq(SECTOR_SIZE, i requires 0 <= i < SECTOR_SIZE => WriteLe32(fat[s * ENTRIES_PER_SECTOR + i / 4])[i % 4])
  }

  lemma TableSectorHolds(fat: seq<u32>, s: nat, k: nat)
    requires (s + 1) * ENTRIES_PER_SECTOR <= |fat| && k < ENTRIES_PER_SECTOR
    ensures EntryOf(TableSector(fat, s), k) == fat[s * ENTRIES_PER_SECTOR + k]
  {
    var bytes := WriteLe32(fat[s * ENTRIES_PER_SECTOR + k]);
    assert TableSector(fat, s)[4 * k..4 * k + 4] == bytes by {
      forall i | 0 <= i < 4 ensures TableSector(fat, s)[4 * k + i] == bytes[i] {
        assert (4 * k + i) / 4 == k && (4 * k + i) % 4 == i;
      }
    }
  }

  // ----- directory slots -----------------------------------------------------------------------

  /** A slot of a directory cluster. */
  datatype Slot = Slot(cluster: nat, index: nat)

  predicate SlotInRange(g: Geometry, at: Slot) {
    ClusterInRange(g, at.cluster) && at.index < SLOTS
  }

  function SlotSector(g: Geometry, at: Slot): nat
    requires SlotInRange(g, at)
  {
    ClusterSector(g, at.cluster) + at.index / SLOTS_PER_SECTOR
  }

  function RecordOf(sector: Sector, k: nat): Record
    requires k < SLOTS_PER_SECTOR
  {
    sector[RECORD_SIZE * k..RECORD_SIZE * k + RECORD_SIZE]
  }

  function RecordAt(disk: Disk, g: Geometry, at: Slot): Record
    requires Fits(disk, g) && SlotInRange(g, at)
  {
    RecordOf(disk[SlotSector(g, at)], at.index % SLOTS_PER_SECTOR)
  }

  function WithRecord(sector: Sector, k: nat, r: Record): (result: Sector)
    requires k < SLOTS_PER_SECTOR
    ensures RecordOf(result, k) == r
    ensures forall j :: 0 <= j < SLOTS_PER_SECTOR && j != k ==> RecordOf(result, j) == RecordOf(sector, j)
  {
    var result := sector[..RECORD_SIZE * k] + r + sector[RECORD_SIZE * k + RECORD_SIZE..];
    assert forall j :: 0 <= j < SLOTS_PER_SECTOR && j != k ==> RecordOf(result, j) == RecordOf(sector, j) by {
      forall j | 0 <= j < SLOTS_PER_SECTOR && j != k ensures RecordOf(result, j) == RecordOf(sector, j) {
        forall i | RECORD_SIZE * j <= i < RECORD_SIZE * j + RECORD_SIZE ensures result[i] == sector[i] {
          if j < k {
            assert i < RECORD_SIZE * k;
          } else {
            assert i >= RECORD_SIZE * k + RECORD_SIZE;
          }
        }
      }
    }
    result
  }

  // ----- data clusters -------------------------------------------------------------------------

  function ClusterAt(disk: Disk, g: Geometry, c: nat): (bytes: seq<Byte>)
    requires Fits(disk, g) && ClusterInRange(g, c)
    ensures |bytes| == CLUSTER_BYTES
  {
    seq(CLUSTER_BYTES, i requires 0 <= i < CLUSTER_BYTES =>
      disk[ClusterSector(g, c) + i / SECTOR_SIZE][i % SECTOR_SIZE])
  }

  /** The sectors of cluster `c`. */
  predicate InCluster(g: Geometry, c: nat, s: nat)
    requires ClusterInRange(g, c)
  {
    ClusterSector(g, c) <= s < ClusterSector(g, c) + SECTORS_PER_CLUSTER
  }

  lemma ClustersAreApart(g: Geometry, c: nat, d: nat, s: nat)
    requires ClusterInRange(g, c) && ClusterInRange(g, d) && InCluster(g, c, s)
    ensures InCluster(g, d, s) ==> c == d
  {}
}
