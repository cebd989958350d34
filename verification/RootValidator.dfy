/**
  The root chain check that runs on the device before anything is mounted: two pointers, one of
  them twice as fast, and no memory beyond that.
*/
module RootValidator {
  import opened Bytes
  import opened Status
  import opened BlockDevice
  import opened FatChain
  import opened Layout

  const ROOT_CLUSTER: u32 := 2

  ghost predicate Readable(disk: Disk, g: Geometry, c: nat) {
    c / ENTRIES_PER_SECTOR < g.fatSectors && SUPERBLOCK_SECTORS + c / ENTRIES_PER_SECTOR < |disk|
  }

  /** The table as far as it lies where it may lie; an entry outside belongs to no chain. */
  ghost function DeviceTable(disk: Disk, g: Geometry): (fat: seq<u32>)
    ensures |fat| == g.Entries()
    ensures forall c :: 0 <= c < |fat| ==>
            fat[c] == if Readable(disk, g, c)
              then EntryOf(disk[SUPERBLOCK_SECTORS + c / ENTRIES_PER_SECTOR], c % ENTRIES_PER_SECTOR)
                      else FREE
  {
    seq(g.Entries(), c requires 0 <= c < g.Entries() =>
      if Readable(disk, g, c) then EntryOf(disk[SUPERBLOCK_SECTORS + c / ENTRIES_PER_SECTOR], c % ENTRIES_PER_SECTOR)
      else FREE)
  }

  predicate Terminator(value: u32) {
    EOC_FIRST <= value < VALUE_LIMIT
  }

  /** The two entries that stand for no cluster hold terminators. */
  ghost predicate ReservedSound(disk: Disk) {
    && SUPERBLOCK_SECTORS < |disk|
    && Terminator(EntryOf(disk[SUPERBLOCK_SECTORS], 0)) && Terminator(EntryOf(disk[SUPERBLOCK_SECTORS], 1))
  }

  method ReadFatEntry(device: Device, g: Geometry, c: u32) returns (status: Status, value: u32)
    requires device.Valid()
    modifies device.log
    ensures status in {Ok, Corrupt, Io, OutOfRange}
    ensures device.log.faults == old(device.log.faults) + if status == Io then 1 else 0
    ensures status == OutOfRange ==> g.fatSectors + SUPERBLOCK_SECTORS > device.sectorCount
    ensures status == Ok ==>
            ValidCluster(c, g.Entries()) && value == DeviceTable(device.data, g)[c] && value < VALUE_LIMIT
    ensures status == Corrupt && ValidCluster(c, g.Entries()) ==>
            ClassifyNext(DeviceTable(device.data, g)[c], g.Entries()).Fault?
  {
    var sector := SUPERBLOCK_SECTORS + c / ENTRIES_PER_SECTOR;
    if !ValidCluster(c, g.Entries()) || sector >= SUPERBLOCK_SECTORS + g.fatSectors {
      return Corrupt, 0;
    }
    var bytes;
    status, bytes := device.Read(sector);
    if status.Failed() {
      return status, 0;
    }
    value := EntryOf(bytes, c % ENTRIES_PER_SECTOR);
    if value >= VALUE_LIMIT {
      return Corrupt, value;
    }
  }

  /** One step along the chain, or the reason why there is none. */
  method Advance(device: Device, g: Geometry, c: u32) returns (status: Status, next: Next)
    requires device.Valid() && ValidCluster(c, g.Entries())
    modifies device.log
    ensures device.log.faults == old(device.log.faults) + if status == Io then 1 else 0
    ensures status in {Ok, Corrupt, Io, OutOfRange}
    ensures status == OutOfRange ==> g.fatSectors + SUPERBLOCK_SECTORS > device.sectorCount
    ensures status == Ok ==> next == ClassifyNext(DeviceTable(device.data, g)[c], g.Entries()) && !next.Fault?
    ensures status == Corrupt ==> ClassifyNext(DeviceTable(device.data, g)[c], g.Entries()).Fault?
  {
    var raw;
    status, raw := ReadFatEntry(device, g, c);
    if status.Failed() {
      return status, End;
    }
    next := ClassifyNext(raw, g.Entries());
    if next.Fault? {
      return Corrupt, next;
    }
  }

  method ValidateReservedEntries(device: Device) returns (status: Status)
    requires device.Valid()
    modifies device.log
    ensures status in {Ok, Corrupt, Io, OutOfRange}
    ensures device.log.faults == old(device.log.faults) + if status == Io then 1 else 0
    ensures status == OutOfRange ==> SUPERBLOCK_SECTORS >= device.sectorCount
    ensures status == Ok ==> ReservedSound(device.data)
    ensures status == Corrupt ==> !ReservedSound(device.data)
  {
    var bytes;
    status, bytes := device.Read(SUPERBLOCK_SECTORS);
    if status.Failed() {
      return;
    }
    for index := 0 to 2
      invariant forall i :: 0 <= i < index ==> Terminator(EntryOf(bytes, i))
    {
      var value := EntryOf(bytes, index);
      if value >= VALUE_LIMIT || value < EOC_FIRST {
        return Corrupt;
      }
    }
    status := Ok;
  }

  /**
    Decides, with two cursors, exactly whether the root has a chain, and counts it.  Only a failing
    device keeps it from deciding.
  */
  method ValidateRootChain(device: Device, g: Geometry) returns (status: Status, count: nat)
    requires device.Valid()
    modifies device.log
    ensures status in {Ok, InvalidArgument, Corrupt, Io, OutOfRange}
    ensures device.log.faults == old(device.log.faults) + if status == Io then 1 else 0
    ensures status == OutOfRange ==>
            g.fatSectors + SUPERBLOCK_SECTORS > device.sectorCount || device.sectorCount <= SUPERBLOCK_SECTORS
    ensures status == InvalidArgument <==> g.clusterCount == 0 || g.clusterCount > MAX_DATA_CLUSTER - 1
    ensures status == Ok ==>
            && ReservedSound(device.data)
            && exists chain ::
                 IsChain(DeviceTable(device.data, g), g.Entries(), ROOT_CLUSTER, chain) && |chain| == count
    ensures status == Corrupt ==>
            !(ReservedSound(device.data) && HasChain(DeviceTable(device.data, g), g.Entries(), ROOT_CLUSTER))
  {
    hide Steps, DeviceTable, IsChain, ReservedSound, ClassifyNext;
    if g.clusterCount == 0 || g.clusterCount > MAX_DATA_CLUSTER - 1 {
      return InvalidArgument, 0;
    }
    status := ValidateReservedEntries(device);
    if status.Failed() {
      return status, 0;
    }
    ghost var table, n := DeviceTable(device.data, g), g.Entries();
    var slow, fast, fastEnded := ROOT_CLUSTER, ROOT_CLUSTER, false;
    ghost var walked, ahead := [ROOT_CLUSTER], [ROOT_CLUSTER];
    count := 0;
    while count < g.clusterCount
      invariant count <= g.clusterCount && |walked| == count + 1 && walked[count] == slow
      invariant IsPath(table, n, ROOT_CLUSTER, walked) && IsPath(table, n, ROOT_CLUSTER, ahead)
      invariant device.log.faults == old(device.log.faults)
      invariant !fastEnded ==> |ahead| == 2 * count + 1 && ahead[2 * count] == fast
    {
      var next;
      status, next := Advance(device, g, slow);
      if status.Failed() {
        if status == Corrupt {
          FaultMeansNoChain(table, n, ROOT_CLUSTER, walked);
        }
        return;
      }
      count := count + 1;
      if next == End {
        EndingPathIsChain(table, n, ROOT_CLUSTER, walked);
        return Ok, count;
      }
      PathExtends(table, n, ROOT_CLUSTER, walked, next.cluster);
      walked := walked + [next.cluster];
      slow := next.cluster;
      if !fastEnded {
        status, fast, fastEnded, ahead := AdvanceTwice(device, g, fast, ahead);
        if status.Failed() {
          return;
        }
        if !fastEnded && slow == fast {
          PathsAgree(table, n, ROOT_CLUSTER, walked, ahead, count);
          RepeatMeansNoChain(table, n, ROOT_CLUSTER, ahead, count, 2 * count);
          return Corrupt, count;
        }
      }
    }
    LongPathMeansNoChain(table, n, ROOT_CLUSTER, walked);
    status := Corrupt;
  }

  /** The two steps of the fast cursor. */
  method AdvanceTwice(device: Device, g: Geometry, cursor: u32, ghost ahead: seq<u32>)
    returns (status: Status, fast: u32, ended: bool, ghost path: seq<u32>)
    requires device.Valid() && ValidEntryCount(g.Entries())
    requires IsPath(DeviceTable(device.data, g), g.Entries(), ROOT_CLUSTER, ahead) && ahead[|ahead| - 1] == cursor
    modifies device.log
    ensures status in {Ok, Corrupt, Io, OutOfRange}
    ensures device.log.faults == old(device.log.faults) + if status == Io then 1 else 0
    ensures status == OutOfRange ==> g.fatSectors + SUPERBLOCK_SECTORS > device.sectorCount
    ensures IsPath(DeviceTable(device.data, g), g.Entries(), ROOT_CLUSTER, path)
    ensures status == Ok && !ended ==> |path| == |ahead| + 2 && path[|path| - 1] == fast
    ensures status == Corrupt ==> !HasChain(DeviceTable(device.data, g), g.Entries(), ROOT_CLUSTER)
  {
    ghost var table, n := DeviceTable(device.data, g), g.Entries();
    fast, ended, path := cursor, false, ahead;
    for step := 0 to 2
      invariant IsPath(table, n, ROOT_CLUSTER, path)
      invariant device.log.faults == old(device.log.faults)
      invariant !ended && |path| == |ahead| + step && path[|path| - 1] == fast
    {
      var next;
      status, next := Advance(device, g, fast);
      if status.Failed() {
        if status == Corrupt {
          FaultMeansNoChain(table, n, ROOT_CLUSTER, path);
        }
        return;
      }
      if next == End {
        return Ok, fast, true, path;
      }
      PathExtends(table, n, ROOT_CLUSTER, path, next.cluster);
      path := path + [next.cluster];
      fast := next.cluster;
    }
    status := Ok;
  }
}
