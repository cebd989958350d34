/** Formatting: what it leaves on the device, and that the file service can start from there. */
module Formatter {
  import opened Bytes
  import opened Status
  import opened Layout
  import opened Records
  import opened FatChain
  import opened BlockDevice
  import opened CrashSafety
  import opened VolumeGeometry
  import opened Quiescence
  import opened DirectoryState
  import opened Lookup
  import opened Superblock
  import Directory
  import RootValidator

  const WRITE_SECTORS := 8

  function ZeroSector(): (z: Sector)
    ensures forall i :: 0 <= i < SECTOR_SIZE ==> z[i] == 0
  {
    Zeros(SECTOR_SIZE)
  }

  /** The table's first sector: two reserved entries and the root, all end of chain. */
  function FirstTableSector(): (s: Sector)
    ensures forall k :: 0 <= k < ENTRIES_PER_SECTOR ==> EntryOf(s, k) == if k < 3 then END_OF_CHAIN else FREE
  {
    var entry := WriteLe32(END_OF_CHAIN);
    var s := entry + entry + entry + Zeros(SECTOR_SIZE - 12);
    assert s[0..4] == entry && s[4..8] == entry && s[8..12] == entry;
    assert forall k :: 3 <= k < ENTRIES_PER_SECTOR ==> s[4 * k..4 * k + 4] == Zeros(4);
    s
  }

  /** Both superblocks in place, table and registry and root directory empty. */
  ghost predicate Formatted(disk: Disk, g: Geometry, s: Superblock) {
    && Fits(disk, g) && disk[0] == disk[1] == SuperblockBytes(s)
    && disk[SUPERBLOCK_SECTORS] == FirstTableSector()
    && forall k :: SUPERBLOCK_SECTORS < k < g.DataStart() + SECTORS_PER_CLUSTER ==> disk[k] == ZeroSector()
  }

  function Values(g: Geometry, serial: u32, text: Label): Superblock
    requires g.fatSectors <= 0xffff_ffff && g.totalSectors <= MAX64
  {
    Superblock(g.totalSectors, g.fatSectors, SUPERBLOCK_SECTORS + g.fatSectors, serial, 0, text)
  }

  ghost predicate ZeroedFrom(before: Disk, disk: Disk, first: nat, count: nat) {
    && |disk| == |before| && first + count <= |disk|
    && forall k :: 0 <= k < |disk| ==> disk[k] == if first <= k < first + count then ZeroSector() else before[k]
  }

  method WriteZeroRun(device: Device, first: nat, count: nat) returns (status: Status)
    requires device.Valid() && first + count <= device.sectorCount
    modifies device, device.log
    ensures device.Valid() && (status == Ok ==> ZeroedFrom(old(device.data), device.data, first, count))
    ensures status in {Ok, Io} || (status == ReadOnly && device.readOnly)
    ensures device.log.faults == old(device.log.faults) + if status == Io then 1 else 0
  {
    for index := 0 to count
      invariant device.Valid() && ZeroedFrom(old(device.data), device.data, first, index)
      invariant device.log.faults == old(device.log.faults)
    {
      status := device.Write(first + index, ZeroSector());
      if status.Failed() {
        return;
      }
    }
    status := Ok;
  }

  method ZeroSectors(device: Device, first: nat, count: nat) returns (status: Status)
    requires device.Valid() && first + count <= device.sectorCount
    modifies device, device.log
    ensures device.Valid() && (status == Ok ==> ZeroedFrom(old(device.data), device.data, first, count))
    ensures status in {Ok, Io} || (status == ReadOnly && device.readOnly)
    ensures device.log.faults == old(device.log.faults) + if status == Io then 1 else 0
  {
    var at: nat, left: nat := first, count;
    while left != 0
      invariant device.Valid() && at + left == first + count && first <= at
      invariant ZeroedFrom(old(device.data), device.data, first, at - first)
      invariant device.log.faults == old(device.log.faults)
    {
      var chunk := if left < WRITE_SECTORS then left else WRITE_SECTORS;
      status := WriteZeroRun(device, at, chunk);
      if status.Failed() {
        return;
      }
      at := at + chunk;
      left := left - chunk;
    }
    status := Ok;
  }

  method Format(device: Device, serial: u32, text: Label) returns (status: Status, g: Geometry)
    requires device.Valid() && device.sectorCount <= MAX64
    modifies device, device.log
    ensures device.Valid() && status in {Ok, ReadOnly, NoSpace, OutOfRange, InvalidArgument, Io}
    ensures status == Ok ==>
            && GeometryFor(device.sectorCount, g) && ValidLabel(text) && g.fatSectors <= 0xffff_ffff
            && device.Quiet() && Formatted(device.data, g, Values(g, serial, text))
    ensures status == ReadOnly <==> device.readOnly
    ensures status == NoSpace <==> status != ReadOnly && device.sectorCount < MINIMUM_SECTORS
    ensures status == OutOfRange <==>
            status !in {ReadOnly, NoSpace} && forall h :: !GeometryFor(device.sectorCount, h)
    ensures status == InvalidArgument <==> status !in {ReadOnly, NoSpace, OutOfRange} && !ValidLabel(text)
    ensures device.log.faults == old(device.log.faults) + if status == Io then 1 else 0
    ensures status !in {Ok, Io} ==> device.data == old(device.data)
  {
    hide SuperblockBytes, ValidLabel, IsLeast, FirstTableSector, ZeroSector;
    g := Geometry(0, 0, 0);
    if device.readOnly {
      return ReadOnly, g;
    }
    var calculated;
    status, calculated := CalculateGeometry(SECTOR_SIZE, device.sectorCount);
    if status.Failed() {
      return;
    }
    GeometryFits(device.sectorCount, calculated);
    var values := Values(calculated, serial, text);
    if !Storable(values) {
      return InvalidArgument, g;
    }
    var image := SuperblockBytes(values);
    status := WriteImage(device, calculated, image);
    if !status.Failed() {
      g := calculated;
    }
  }

  /** Everything after the checks: table, registry and root first, then backup, then primary. */
  method WriteImage(device: Device, g: Geometry, image: Sector) returns (status: Status)
    requires device.Valid() && g.Valid() && g.totalSectors == device.sectorCount && !device.readOnly
    modifies device, device.log
    ensures device.Valid() && status in {Ok, Io}
    ensures device.log.faults == old(device.log.faults) + if status == Io then 1 else 0
    ensures status == Ok ==>
            && device.Quiet() && device.data[0] == device.data[1] == image
            && device.data[SUPERBLOCK_SECTORS] == FirstTableSector()
            && forall k :: SUPERBLOCK_SECTORS < k < g.DataStart() + SECTORS_PER_CLUSTER ==>
                 device.data[k] == ZeroSector()
  {
    hide FirstTableSector, ZeroSector;
    status := ZeroSectors(device, SUPERBLOCK_SECTORS, g.DataStart() + SECTORS_PER_CLUSTER - SUPERBLOCK_SECTORS);
    if status.Failed() {
      return;
    }
    status := device.Write(SUPERBLOCK_SECTORS, FirstTableSector());
    if status.Failed() {
      return;
    }
    status := device.Write(1, image);
    if status.Failed() {
      return;
    }
    status := device.Write(0, image);
    if status.Failed() {
      return;
    }
    status := device.Flush();
  }

  // ----- what a fresh volume is ---------------------------------------------------------------------

  lemma ZeroEntries(k: nat)
    requires k < ENTRIES_PER_SECTOR
    ensures EntryOf(ZeroSector(), k) == FREE
  {}

  lemma FormattedTable(disk: Disk, g: Geometry, s: Superblock)
    requires Formatted(disk, g, s)
    ensures forall c :: 0 <= c < g.fatSectors * ENTRIES_PER_SECTOR ==>
            FatEntry(disk, g, c) == if c < 3 then END_OF_CHAIN else FREE
  {
    hide EntryOf, FirstTableSector, ZeroSector;
    forall c | 0 <= c < g.fatSectors * ENTRIES_PER_SECTOR
      ensures FatEntry(disk, g, c) == if c < 3 then END_OF_CHAIN else FREE
    {
      if c >= ENTRIES_PER_SECTOR {
        assert disk[SUPERBLOCK_SECTORS + c / ENTRIES_PER_SECTOR] == ZeroSector();
        ZeroEntries(c % ENTRIES_PER_SECTOR);
      }
    }
  }

  lemma FormattedRoot(disk: Disk, g: Geometry, s: Superblock, i: nat)
    requires Formatted(disk, g, s) && i < SLOTS
    ensures RecordAt(disk, g, Slot(2, i))[0] == 0
  {
    assert disk[SlotSector(g, Slot(2, i))] == ZeroSector();
  }

  /** A fresh volume is sound: the file service can start on it, with the root as its only directory. */
  lemma FormattedIsSound(disk: Disk, g: Geometry, s: Superblock)
    requires Formatted(disk, g, s)
    ensures Sound(Volume(g, {2}), disk)
  {
    hide RecordAt, FatEntry, DecodePrimary, SuperblockBytes;
    var v := Volume(g, {2});
    FormattedTable(disk, g, s);
    forall at | v.IsSlot(at) ensures NeverUsed(v, disk, at) && FilePrimary(RecordAt(disk, g, at)) == None {
      FormattedRoot(disk, g, s, at.index);
      assert at == Slot(2, at.index);
      TaggedIsNoPrimary(RecordAt(disk, g, at));
    }
    assert Guarded(v, disk, disk, Table(disk, g), map[]);
  }

  /** And its root directory is tidy and empty. */
  lemma FormattedIsTidy(disk: Disk, g: Geometry, s: Superblock)
    requires Formatted(disk, g, s)
    ensures Volume(g, {2}).Holds(disk) && Tidy(Volume(g, {2}), disk, [2])
    ensures Scans(Volume(g, {2}), disk, 2) && Listing(Volume(g, {2}), disk, 2) == []
    ensures IsChain(Table(disk, g), g.Entries(), 2, [2])
  {
    FormattedTable(disk, g, s);
    assert ClassifyNext(Table(disk, g)[2], g.Entries()) == FatChain.End;
    var v := Volume(g, {2});
    var slots := DirSlots(v, disk, 2);
    forall i | 0 <= i < SLOTS ensures slots[i][0] == 0 {
      FormattedRoot(disk, g, s, i);
    }
    assert Directory.Cells(slots)[0] == Directory.CellAt(slots, 0) == Directory.End;
    assert Directory.Scan(slots) == Success([]);
    assert TidyCluster(v, disk, 2);
  }

  /** The root chain is one cluster, and every other cluster is free. */
  lemma FormattedChain(disk: Disk, g: Geometry, s: Superblock)
    requires Formatted(disk, g, s)
    ensures IsChain(RootValidator.DeviceTable(disk, g), g.Entries(), RootValidator.ROOT_CLUSTER, [2])
    ensures RootValidator.ReservedSound(disk)
    ensures forall c :: 3 <= c < g.Entries() ==> RootValidator.DeviceTable(disk, g)[c] == FatEntry(disk, g, c) == FREE
  {
    FormattedTable(disk, g, s);
    var table := RootValidator.DeviceTable(disk, g);
    forall c | 0 <= c < g.Entries() ensures table[c] == FatEntry(disk, g, c) {
      assert RootValidator.Readable(disk, g, c);
    }
    assert ClassifyNext(table[2], g.Entries()) == FatChain.End;
  }
}
