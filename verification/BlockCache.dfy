/**
  The write-back block cache: a fixed table of entries over a device, refining one flat map of
  sectors.  Eviction, loads, pins and barriers, failed ones included, never change that map.
*/
module BlockCache {
  import opened Bytes
  import opened Status
  import opened BlockDevice

  const MAX_ENTRIES := 256
  const MAX_PINS := 0xffff_ffff

  datatype State = Empty | Clean | Dirty | Error

  datatype Entry = Entry(
    bytes: Sector, sector: nat, dirtyGeneration: nat, lastUse: nat, pins: nat, state: State)
  {
    predicate Unsaved() {
      state == Dirty || state == Error
    }

    predicate Holds(s: nat) {
      state != Empty && sector == s
    }

    predicate Evictable() {
      pins == 0 && !Unsaved()
    }
  }

  const EMPTY_ENTRY := Entry(Zeros(SECTOR_SIZE), 0, 0, 0, 0, Empty)

  ghost predicate DirtySector(entries: seq<Entry>, s: nat) {
    exists i :: 0 <= i < |entries| && entries[i].Unsaved() && entries[i].sector == s
  }

  /** The entry table represents `logical` over the device's `data`, entry `k` left out of account. */
  ghost predicate Represents(entries: seq<Entry>, logical: Disk, data: Disk, generation: nat, k: int) {
    && |logical| == |data| && |entries| > 0
    && (forall i :: 0 <= i < |entries| && i != k && entries[i].state != Empty ==>
          entries[i].sector < |logical| && entries[i].bytes == logical[entries[i].sector])
    && (forall i, j :: 0 <= i < j < |entries| && entries[i].state != Empty && entries[j].state != Empty ==>
          entries[i].sector != entries[j].sector)
    && (forall i :: 0 <= i < |entries| && entries[i].Unsaved() ==>
          1 <= entries[i].dirtyGeneration <= generation)
    && (forall s :: 0 <= s < |logical| && !DirtySector(entries, s) ==> logical[s] == data[s])
  }

  /** This entry holds the sector and must not be evicted. */
  predicate Pinned(entries: seq<Entry>, i: int, sector: nat) {
    0 <= i < |entries| && entries[i].Holds(sector) && entries[i].pins > 0
  }

  /** Some entry holds the sector. */
  predicate Held(entries: seq<Entry>, sector: nat) {
    exists i :: 0 <= i < |entries| && entries[i].Holds(sector)
  }

  /** Every entry is pinned or has something to save. */
  predicate NoneEvictable(entries: seq<Entry>) {
    forall i :: 0 <= i < |entries| ==> !entries[i].Evictable()
  }

  /** The entry to give up: an empty one, or else the least recently used clean one that is not pinned. */
  predicate Victim(entries: seq<Entry>, victim: nat) {
    && victim < |entries| && entries[victim].Evictable()
    && (entries[victim].state != Empty ==>
          forall i :: 0 <= i < |entries| && entries[i].Evictable() ==>
            entries[i].state != Empty && entries[victim].lastUse <= entries[i].lastUse)
  }

  /** The entry has something to save that a barrier for `target` has to save. */
  predicate Due(entries: seq<Entry>, i: nat, target: nat)
    requires i < |entries|
  {
    entries[i].Unsaved() && entries[i].dirtyGeneration <= target
  }

  ghost predicate SomeDue(entries: seq<Entry>, upTo: nat, target: nat) {
    exists i :: 0 <= i < upTo && i < |entries| && Due(entries, i, target)
  }

  /** Nothing changed but how saving an entry went. */
  ghost predicate StatesOnly(before: seq<Entry>, after: seq<Entry>) {
    && |before| == |after|
    && forall i :: 0 <= i < |before| ==>
         && after[i] == before[i].(state := after[i].state)
         && (before[i].Unsaved() <==> after[i].Unsaved())
  }

  /** An entry can be given up exactly if it is not pinned and has nothing to save. */
  lemma NoneEvictableMeans(entries: seq<Entry>)
    ensures NoneEvictable(entries) <==>
            forall i :: 0 <= i < |entries| ==>
              entries[i].pins > 0 || entries[i].state == Dirty || entries[i].state == Error
  {
    assert forall i :: 0 <= i < |entries| ==>
        (entries[i].Evictable() <==> entries[i].pins == 0 && entries[i].state != Dirty && entries[i].state != Error);
  }

  /** The victim is an unpinned empty entry, or there is none and it is the unpinned clean one used longest ago. */
  lemma VictimMeans(entries: seq<Entry>, victim: nat)
    ensures Victim(entries, victim) <==>
            && victim < |entries| && entries[victim].pins == 0
            && (|| entries[victim].state == Empty
                || (entries[victim].state == Clean
                    && forall i :: 0 <= i < |entries| && entries[i].pins == 0 ==>
                         && entries[i].state != Empty
                         && (entries[i].state == Clean ==> entries[victim].lastUse <= entries[i].lastUse)))
  {
    assert forall i :: 0 <= i < |entries| ==>
        (entries[i].Evictable() <==> entries[i].pins == 0 && entries[i].state != Dirty && entries[i].state != Error);
  }

  class Cache {
    const device: Device
    var entries: seq<Entry>
    var currentGeneration: nat
    var useClock: nat
    // the flat sector map that clients see
    ghost var logical: Disk

    ghost predicate ValidBut(k: int)
      reads this, device
    {
      && device.Valid() && |entries| <= MAX_ENTRIES && 0 < currentGeneration
      && Represents(entries, logical, device.data, currentGeneration, k)
    }

    ghost predicate Valid()
      reads this, device
    {
      ValidBut(-1)
    }

    /** There is no room for a sector that is not held. */
    ghost predicate Full()
      reads this
    {
      NoneEvictable(entries)
    }

    ghost predicate AllSaved()
      reads this
    {
      forall i :: 0 <= i < |entries| ==> !entries[i].Unsaved()
    }

    constructor (device: Device, entryCount: nat)
      requires device.Valid() && 0 < entryCount <= MAX_ENTRIES
      ensures Valid() && AllSaved() && this.device == device && logical == device.data
      ensures currentGeneration == 1 && entries == seq(entryCount, _ => EMPTY_ENTRY)
    {
      this.device := device;
      entries := seq(entryCount, _ => EMPTY_ENTRY);
      currentGeneration := 1;
      useClock := 0;
      logical := device.data;
    }

    method FindEntry(sector: nat) returns (index: int)
      ensures -1 <= index < |entries|
      ensures index >= 0 ==> entries[index].Holds(sector)
      ensures index == -1 ==> forall i :: 0 <= i < |entries| ==> !entries[i].Holds(sector)
    {
      for i := 0 to |entries|
        invariant forall j :: 0 <= j < i ==> !entries[j].Holds(sector)
      {
        if entries[i].state != Empty && entries[i].sector == sector {
          return i;
        }
      }
      return -1;
    }

    /** An empty slot if there is one, else the least recently used clean one; never unsaved data. */
    method SelectVictim() returns (victim: int)
      ensures -1 <= victim < |entries|
      ensures victim == -1 <==> Full()
      ensures victim >= 0 ==> Victim(entries, victim)
    {
      victim := -1;
      for i := 0 to |entries|
        invariant -1 <= victim < i
        invariant victim == -1 <==> forall j :: 0 <= j < i ==> !entries[j].Evictable()
        invariant victim >= 0 ==> entries[victim].Evictable() && entries[victim].state == Clean
        invariant victim >= 0 ==> forall j :: 0 <= j < i && entries[j].Evictable() ==>
                    entries[j].state == Clean && entries[victim].lastUse <= entries[j].lastUse
      {
        if entries[i].pins != 0 {
          continue;
        }
        if entries[i].state == Empty {
          return i;
        }
        if entries[i].state == Clean && (victim == -1 || entries[i].lastUse < entries[victim].lastUse) {
          victim := i;
        }
      }
    }

    /** Finds or makes an entry for `sector`; without `load` a fresh entry's bytes mean nothing yet. */
    method AcquireEntry(sector: nat, load: bool) returns (status: Status, index: int)
      requires Valid()
      modifies this`entries, this`useClock, device.log
      ensures status == WouldBlock <==> sector < device.sectorCount && !Held(old(entries), sector) && old(Full())
      ensures status == Io ==> load && !Held(old(entries), sector)
      ensures device.log.faults == old(device.log.faults) + if status == Io then 1 else 0
      ensures Acquired(old(entries), entries, status, index, sector, useClock)
      ensures status == Ok ==> 0 <= index < |entries| && entries[index].Holds(sector)
      ensures status == Ok ==> sector < device.sectorCount && ValidBut(if load then -1 else index)
      ensures status == Ok && !load ==>
              (entries[index].Unsaved() || logical[sector] == device.data[sector])
      ensures status != Ok ==> Valid()
      ensures status in {Ok, OutOfRange, WouldBlock, Io} && (status == OutOfRange <==> sector >= device.sectorCount)
      ensures SameUnsaved(old(entries), entries)
    {
      hide Represents, SameUnsaved;
      RepresentsFacts(entries, logical, device.data, currentGeneration, -1);
      index := -1;
      if sector >= device.sectorCount {
        return OutOfRange, -1;
      }
      index := FindEntry(sector);
      if index >= 0 {
        assert Held(entries, sector);
        HeldIsRight(entries, logical, device.data, currentGeneration, index);
        useClock := useClock + 1;
        Adjust(index, entries[index].(lastUse := useClock));
        return Ok, index;
      }
      index := SelectVictim();
      if index < 0 {
        return WouldBlock, -1;
      }
      useClock := useClock + 1;
      var bytes: Sector := Zeros(SECTOR_SIZE);
      if load {
        status, bytes := device.Read(sector);
        if status.Failed() {
          InstallKeeps(entries, logical, device.data, currentGeneration, index, EMPTY_ENTRY, true);
          entries := entries[index := EMPTY_ENTRY];
          return status, -1;
        }
      }
      var entry := Entry(bytes, sector, 0, useClock, 0, Clean);
      InstallKeeps(entries, logical, device.data, currentGeneration, index, entry, load);
      entries := entries[index := entry];
      return Ok, index;
    }

    /** Replaces bookkeeping fields of an entry. */
    method Adjust(index: nat, entry: Entry)
      requires Valid() && index < |entries|
      requires entry.bytes == entries[index].bytes && entry.sector == entries[index].sector
      requires entry.dirtyGeneration == entries[index].dirtyGeneration
      requires entry.Unsaved() <==> entries[index].Unsaved()
      requires entry.state == Empty <==> entries[index].state == Empty
      modifies this`entries
      ensures Valid() && SameUnsaved(old(entries), entries) && entries == old(entries)[index := entry]
    {
      entries := entries[index := entry];
      DirtySectorsKept(old(entries), entries);
    }

    method Read(sector: nat) returns (status: Status, bytes: Sector)
      requires Valid()
      modifies this`entries, this`useClock, device.log
      ensures Valid()
      ensures status == Ok ==> sector < |logical| && bytes == logical[sector]
      ensures status in {Ok, OutOfRange, WouldBlock, Io} && (status == OutOfRange <==> sector >= device.sectorCount)
      ensures status == WouldBlock <==> sector < device.sectorCount && !Held(old(entries), sector) && old(Full())
      ensures device.log.faults == old(device.log.faults) + if status == Io then 1 else 0
      ensures Full() == old(Full())
      ensures old(AllSaved()) ==> AllSaved()
    {
      bytes := Zeros(SECTOR_SIZE);
      var index;
      status, index := AcquireEntry(sector, true);
      AcquiredKeepsPins(old(entries), entries, status, index, sector, useClock);
      if !status.Failed() {
        bytes := entries[index].bytes;
      }
    }

    method Write(sector: nat, bytes: Sector, generation: nat) returns (status: Status)
      requires Valid()
      modifies this`entries, this`useClock, this`logical, device.log
      ensures Valid() && device.log.faults == old(device.log.faults)
      ensures status in {Ok, InvalidArgument, ReadOnly, OutOfRange, WouldBlock}
      ensures status == InvalidArgument <==> generation == 0 || generation > currentGeneration
      ensures status == ReadOnly <==> status != InvalidArgument && device.readOnly
      ensures status == OutOfRange <==> status !in {InvalidArgument, ReadOnly} && sector >= device.sectorCount
      ensures status == WouldBlock <==>
              && status !in {InvalidArgument, ReadOnly} && sector < device.sectorCount
              && !Held(old(entries), sector) && old(Full())
      ensures status != Ok ==> entries == old(entries)
      ensures status == Ok ==> sector < |old(logical)| && logical == old(logical)[sector := bytes]
      ensures status != Ok ==> logical == old(logical) && (old(AllSaved()) ==> AllSaved())
    {
      hide Represents, SameUnsaved;
      if generation == 0 || generation > currentGeneration {
        return InvalidArgument;
      }
      if device.readOnly {
        return ReadOnly;
      }
      var index;
      status, index := AcquireEntry(sector, false);
      SavedStays(old(entries), entries);
      if status.Failed() {
        return;
      }
      RepresentsFacts(entries, logical, device.data, currentGeneration, index);
      StoreKeeps(entries, logical, device.data, currentGeneration, index, sector, bytes, generation);
      entries := entries[index := entries[index].(bytes := bytes, dirtyGeneration := generation, state := Dirty)];
      logical := logical[sector := bytes];
    }

    method Pin(sector: nat) returns (status: Status)
      requires Valid()
      modifies this`entries, this`useClock, device.log
      ensures Valid() && status in {Ok, OutOfRange, WouldBlock, Io, Overflow}
      ensures status == OutOfRange <==> sector >= device.sectorCount
      ensures status == WouldBlock <==> sector < device.sectorCount && !Held(old(entries), sector) && old(Full())
      ensures device.log.faults == old(device.log.faults) + if status == Io then 1 else 0
      ensures status == Overflow <==> exists i :: Pinned(old(entries), i, sector) && old(entries)[i].pins == MAX_PINS
      ensures |entries| == |old(entries)|
      ensures forall i :: 0 <= i < |entries| ==>
              entries[i].pins == old(entries)[i].pins
                                 + if status == Ok && entries[i].Holds(sector) then 1 else 0
      ensures status == Ok ==> exists i :: Pinned(entries, i, sector)
    {
      var index;
      status, index := AcquireEntry(sector, true);
      AcquiredKeepsPins(old(entries), entries, status, index, sector, useClock);
      if status.Failed() {
        return;
      }
      if entries[index].pins == MAX_PINS {
        assert Pinned(old(entries), index, sector);
        return Overflow;
      }
      Adjust(index, entries[index].(pins := entries[index].pins + 1));
      assert Pinned(entries, index, sector);
    }

    method Unpin(sector: nat) returns (status: Status)
      requires Valid()
      modifies this`entries
      ensures Valid()
      ensures status == if exists i :: Pinned(old(entries), i, sector) then Ok else InvalidState
      ensures status == Ok ==>
              exists i :: Pinned(old(entries), i, sector)
                && entries == old(entries)[i := old(entries)[i].(pins := old(entries)[i].pins - 1)]
      ensures status != Ok ==> entries == old(entries)
    {
      hide DirtySector, Represents, SameUnsaved;
      OneHolds(entries, logical, device.data, currentGeneration, sector);
      var index := FindEntry(sector);
      if index < 0 || entries[index].pins == 0 {
        return InvalidState;
      }
      assert Pinned(entries, index, sector);
      Adjust(index, entries[index].(pins := entries[index].pins - 1));
      status := Ok;
    }

    /** The device has every unsaved byte of generation at most `target` that `entries[..upTo]` hold. */
    ghost predicate Written(target: nat, upTo: nat)
      reads this, device
      requires device.Valid()
    {
      forall i :: 0 <= i < upTo && i < |entries| && entries[i].Unsaved() && entries[i].dirtyGeneration <= target ==>
        entries[i].sector < device.sectorCount && device.data[entries[i].sector] == entries[i].bytes
    }

    /** Sends one unsaved entry to the device. */
    method WriteEntry(index: nat) returns (status: Status)
      requires Valid() && index < |entries| && entries[index].Unsaved()
      modifies this`entries, device`data, device`maybe, device`exposed, device.log
      ensures Valid() && SameUnsaved(old(entries), entries) && status in {Ok, ReadOnly, Io}
      ensures status == ReadOnly <==> device.readOnly
      ensures device.log.faults == old(device.log.faults) + if status == Io then 1 else 0
      ensures StatesOnly(old(entries), entries)
      ensures status == Ok ==> device.data == old(device.data)[entries[index].sector := entries[index].bytes]
      ensures status != Ok ==>
              device.data == old(device.data)
              || device.data == old(device.data)[entries[index].sector := entries[index].bytes]
      ensures forall s :: 0 <= s < |logical| ==> device.maybe[s] <= old(device.maybe[s]) + {logical[s]}
      ensures forall d :: d in device.exposed ==> d in old(device.exposed) || device.Possible(d)
      ensures old(device.exposed) <= device.exposed
    {
      hide Represents, DirtySector;
      var entry := entries[index];
      UnsavedIsLogical(entries, logical, device.data, currentGeneration, index);
      ghost var data := device.data;
      status := device.Write(entry.sector, entry.bytes);
      SendKeeps(entries, logical, data, device.data, currentGeneration, index, if status.Failed() then Error
                else Dirty);
      entries := entries[index := entry.(state := if status.Failed() then Error else Dirty)];
    }

    /** Sends the entry to the device if the barrier is due to write it. */
    method WriteDue(index: nat, target: nat) returns (status: Status)
      requires Valid() && index < |entries|
      modifies this`entries, device`data, device`maybe, device`exposed, device.log
      ensures Valid() && SameUnsaved(old(entries), entries) && status in {Ok, ReadOnly, Io}
      ensures status == ReadOnly <==> device.readOnly && Due(old(entries), index, target)
      ensures status == Io ==> !device.readOnly
      ensures device.log.faults == old(device.log.faults) + if status == Io then 1 else 0
      ensures StatesOnly(old(entries), entries)
      ensures status == Ok && old(Written(target, index)) ==> Written(target, index + 1)
      ensures forall s :: 0 <= s < |logical| ==> device.maybe[s] <= old(device.maybe[s]) + {logical[s]}
      ensures forall d :: d in device.exposed ==> d in old(device.exposed) || device.Possible(d)
      ensures old(device.exposed) <= device.exposed
    {
      if !Due(entries, index, target) {
        return Ok;
      }
      status := WriteEntry(index);
    }

    /** The write-out loop of the barrier; the first error is kept, the other entries still go out. */
    method WriteOut(target: nat) returns (firstError: Status)
      requires Valid()
      modifies this`entries, device`data, device`maybe, device`exposed, device.log
      ensures Valid()
      ensures SameUnsaved(old(entries), entries) && firstError in {Ok, ReadOnly, Io}
      ensures firstError == ReadOnly <==>
              device.readOnly && SomeDue(old(entries), |entries|, target)
      ensures old(device.log.faults) <= device.log.faults
      ensures firstError == Io <==> old(device.log.faults) < device.log.faults
      ensures StatesOnly(old(entries), entries)
      ensures firstError == Ok ==> Written(target, |entries|)
      ensures Contained(old(device.maybe), old(device.exposed), device.maybe, device.exposed, logical)
    {
      hide DirtySector, Represents, Due;
      RepresentsFacts(entries, logical, device.data, currentGeneration, -1);
      firstError := Ok;
      for index := 0 to |entries|
        invariant |entries| == old(|entries|) && Valid()
        invariant SameUnsaved(old(entries), entries) && firstError in {Ok, ReadOnly, Io}
        invariant firstError == Ok ==> Written(target, index)
        invariant firstError == ReadOnly <==>
                  device.readOnly && SomeDue(old(entries), index, target)
        invariant old(device.log.faults) <= device.log.faults
        invariant firstError == Io <==> old(device.log.faults) < device.log.faults
        invariant device.readOnly ==> device.log.faults == old(device.log.faults)
        invariant StatesOnly(old(entries), entries)
        invariant Contained(old(device.maybe), old(device.exposed), device.maybe, device.exposed, logical)
      {
        ghost var maybe, exposed := device.maybe, device.exposed;
        SomeDueStep(old(entries), entries, index, target);
        var status := WriteDue(index, target);
        ContainedStep(old(device.maybe), old(device.exposed), maybe, exposed, device.maybe, device.exposed, logical);
        if status.Failed() && firstError == Ok {
          firstError := status;
        }
      }
    }

    /**
      Persists every unsaved sector up to `target`.  Success means the device has them for good;
      failure loses nothing, since the entries stay unsaved.
    */
    method Barrier(target: nat) returns (status: Status)
      requires Valid()
      modifies this`entries, device`data, device`maybe, device`exposed, device.log
      ensures Valid()
      ensures status == ReadOnly <==>
              status != InvalidArgument && device.readOnly
              && SomeDue(old(entries), |entries|, target)
      ensures old(device.log.faults) <= device.log.faults
      ensures status == Io <==> old(device.log.faults) < device.log.faults
      ensures target == 0 || target > currentGeneration <==> status == InvalidArgument
      ensures status in {Ok, InvalidArgument, ReadOnly, Io}
      ensures status != Ok ==> SameUnsaved(old(entries), entries)
      ensures status == Ok ==> device.Quiet()
      ensures status == Ok ==> forall i :: 0 <= i < |entries| ==>
                entries[i].Unsaved() ==> entries[i].dirtyGeneration > target
      ensures status == Ok && target == currentGeneration ==> AllSaved() && device.data == logical
      ensures |entries| == |old(entries)|
      ensures Contained(old(device.maybe), old(device.exposed), device.maybe, device.exposed, logical)
    {
      if target == 0 || target > currentGeneration {
        return InvalidArgument;
      }
      status := WriteOut(target);
      if status.Failed() {
        return;
      }
      status := device.Flush();
      if status.Failed() {
        MarkFailed(target);
      } else {
        MarkClean(target);
      }
    }

    method MarkFailed(target: nat)
      requires Valid()
      modifies this`entries
      ensures Valid() && SameUnsaved(old(entries), entries)
    {
      for index := 0 to |entries|
        invariant |entries| == old(|entries|) && Valid() && SameUnsaved(old(entries), entries)
      {
        if entries[index].state == Dirty && entries[index].dirtyGeneration <= target {
          ghost var before := entries;
          entries := entries[index := entries[index].(state := Error)];
          DirtySectorsKept(before, entries);
        }
      }
    }

    method MarkClean(target: nat)
      requires Valid() && Written(target, |entries|)
      modifies this`entries
      ensures Valid() && |entries| == |old(entries)|
      ensures forall i :: 0 <= i < |entries| && entries[i].Unsaved() ==> entries[i].dirtyGeneration > target
    {
      hide DirtySector;
      for index := 0 to |entries|
        invariant |entries| == old(|entries|) && Valid() && Written(target, |entries|)
        invariant forall i :: 0 <= i < index && entries[i].Unsaved() ==> entries[i].dirtyGeneration > target
      {
        if entries[index].Unsaved() && entries[index].dirtyGeneration <= target {
          ghost var before := entries;
          entries := entries[index := entries[index].(state := Clean, dirtyGeneration := 0)];
          DirtySectorsLose(before, entries, index);
        }
      }
    }

    method AdvanceGeneration() returns (status: Status, generation: nat)
      requires Valid()
      modifies this`currentGeneration
      ensures Valid()
      ensures status == Ok ==> generation == currentGeneration == old(currentGeneration) + 1
      ensures status != Ok ==> currentGeneration == old(currentGeneration)
      ensures status == Overflow <==> old(currentGeneration) == 0xffff_ffff_ffff_ffff
      ensures status == Ok || status == Overflow
    {
      if currentGeneration == 0xffff_ffff_ffff_ffff {
        return Overflow, 0;
      }
      currentGeneration := currentGeneration + 1;
      return Ok, currentGeneration;
    }

    /** Empties the table: clients see the device again, and only writes that were never saved are lost. */
    method Invalidate()
      requires Valid()
      modifies this`entries, this`useClock, this`logical
      ensures Valid() && AllSaved() && |entries| == |old(entries)| && logical == device.data
      ensures forall i :: 0 <= i < |entries| ==> entries[i].state == Empty
      ensures forall s :: 0 <= s < |logical| && !DirtySector(old(entries), s) ==> logical[s] == old(logical)[s]
      ensures old(AllSaved()) ==> logical == old(logical)
    {
      entries := seq(|entries|, _ => EMPTY_ENTRY);
      useClock := 0;
      logical := device.data;
    }
  }

  /** No sector is held twice. */
  lemma OneHolds(entries: seq<Entry>, logical: Disk, data: Disk, generation: nat, sector: nat)
    requires Represents(entries, logical, data, generation, -1)
    ensures forall i, j :: Pinned(entries, i, sector) && Pinned(entries, j, sector) ==> i == j
    ensures forall i, j :: Pinned(entries, i, sector) && 0 <= j < |entries| && entries[j].Holds(sector) ==> i == j
  {}

  lemma SomeDueStep(before: seq<Entry>, entries: seq<Entry>, index: nat, target: nat)
    requires StatesOnly(before, entries) && index < |entries|
    ensures Due(before, index, target) <==> Due(entries, index, target)
    ensures SomeDue(before, index + 1, target) <==> SomeDue(before, index, target) || Due(before, index, target)
  {}

  lemma DirtySectorsGrow(before: seq<Entry>, after: seq<Entry>)
    requires |before| == |after|
    requires forall i :: 0 <= i < |before| && before[i].Unsaved() ==>
             after[i].Unsaved() && before[i].sector == after[i].sector
    ensures forall s :: DirtySector(before, s) ==> DirtySector(after, s)
  {
    forall s | DirtySector(before, s) ensures DirtySector(after, s) {
      var i :| 0 <= i < |before| && before[i].Unsaved() && before[i].sector == s;
      assert after[i].Unsaved() && after[i].sector == s;
    }
  }

  lemma DirtySectorsLose(before: seq<Entry>, after: seq<Entry>, k: nat)
    requires k < |before| && |after| == |before|
    requires forall i :: 0 <= i < |before| && i != k ==> after[i] == before[i]
    ensures forall s :: DirtySector(before, s) && s != before[k].sector ==> DirtySector(after, s)
  {
    forall s | DirtySector(before, s) && s != before[k].sector ensures DirtySector(after, s) {
      var i :| 0 <= i < |before| && before[i].Unsaved() && before[i].sector == s;
      assert after[i].Unsaved() && after[i].sector == s;
    }
  }

  /**
    What a request for a sector does to the table: a hit is marked as used, a miss takes the place of the one
    victim, a failed load leaves that place empty, and nothing else changes.
  */
  ghost predicate Acquired(before: seq<Entry>, after: seq<Entry>, status: Status, index: int, sector: nat, now: nat) {
    if status == Ok then
      && 0 <= index < |before|
      && (if before[index].Holds(sector) then after == before[index := before[index].(lastUse := now)]
          else
            && !Held(before, sector) && Victim(before, index)
            && exists bytes: Sector :: after == before[index := Entry(bytes, sector, 0, now, 0, Clean)])
    else
      after == before || (status == Io && exists i: nat :: Victim(before, i) && after == before[i := EMPTY_ENTRY])
  }

  lemma AcquiredKeepsPins(before: seq<Entry>, after: seq<Entry>, status: Status, index: int, sector: nat, now: nat)
    requires Acquired(before, after, status, index, sector, now)
    ensures |after| == |before| && forall i :: 0 <= i < |before| ==> after[i].pins == before[i].pins
    ensures NoneEvictable(before) <==> NoneEvictable(after)
  {}

  /** The entries holding data the device does not have are the same, for the same sectors. */
  ghost predicate SameUnsaved(before: seq<Entry>, after: seq<Entry>) {
    && |before| == |after|
    && forall i :: 0 <= i < |before| ==>
         && (before[i].Unsaved() <==> after[i].Unsaved())
         && (before[i].Unsaved() ==> before[i].sector == after[i].sector)
  }

  lemma DirtySectorsKept(before: seq<Entry>, after: seq<Entry>)
    requires SameUnsaved(before, after)
    ensures forall s :: DirtySector(before, s) <==> DirtySector(after, s)
  {
    DirtySectorsGrow(before, after);
    DirtySectorsGrow(after, before);
  }

  /** Putting a clean or empty entry in place of one with nothing to save keeps the map. */
  lemma InstallKeeps(entries: seq<Entry>, logical: Disk, data: Disk, generation: nat, index: nat,
                     entry: Entry, load: bool)
    requires Represents(entries, logical, data, generation, -1) && index < |entries|
    requires !entries[index].Unsaved() && !entry.Unsaved()
    requires entry.state == Clean ==>
             && entry.sector < |logical| && (load ==> entry.bytes == data[entry.sector])
             && forall i :: 0 <= i < |entries| ==> !entries[i].Holds(entry.sector)
    ensures Represents(entries[index := entry], logical, data, generation, if load then -1 else index)
    ensures SameUnsaved(entries, entries[index := entry])
    ensures entry.state == Clean ==> logical[entry.sector] == data[entry.sector]
  {
    DirtySectorsKept(entries, entries[index := entry]);
    DirtySectorIsHeld(entries, entry.sector);
  }

  /** Putting new bytes into an entry for their sector replaces that one sector of the map. */
  lemma StoreKeeps(entries: seq<Entry>, logical: Disk, data: Disk, generation: nat, index: nat, sector: nat,
                   bytes: Sector, g: nat)
    requires Represents(entries, logical, data, generation, index) && index < |entries| && sector < |logical|
    requires entries[index].Holds(sector) && 1 <= g <= generation
    ensures var entry := entries[index].(bytes := bytes, dirtyGeneration := g, state := Dirty);
            Represents(entries[index := entry], logical[sector := bytes], data, generation, -1)
  {
    var after := entries[index := entries[index].(bytes := bytes, dirtyGeneration := g, state := Dirty)];
    DirtySectorsGrow(entries, after);
    assert after[index].Unsaved() && after[index].sector == sector;
    assert DirtySector(after, sector);
  }

  lemma UnsavedIsLogical(entries: seq<Entry>, logical: Disk, data: Disk, generation: nat, index: nat)
    requires Represents(entries, logical, data, generation, -1) && index < |entries| && entries[index].Unsaved()
    ensures |logical| == |data| && entries[index].sector < |logical|
            && entries[index].bytes == logical[entries[index].sector]
  {}

  /** Sending an unsaved entry, whether or not it arrives, keeps the map; the entry stays unsaved. */
  lemma SendKeeps(entries: seq<Entry>, logical: Disk, data: Disk, data': Disk, generation: nat, index: nat,
                  state: State)
    requires Represents(entries, logical, data, generation, -1) && index < |entries| && entries[index].Unsaved()
    requires entries[index].sector < |data| && (state == Dirty || state == Error)
    requires data' == data || data' == data[entries[index].sector := entries[index].bytes]
    ensures Represents(entries[index := entries[index].(state := state)], logical, data', generation, -1)
    ensures SameUnsaved(entries, entries[index := entries[index].(state := state)])
  {
    DirtySectorsKept(entries, entries[index := entries[index].(state := state)]);
    assert DirtySector(entries, entries[index].sector);
  }

  lemma SavedStays(before: seq<Entry>, after: seq<Entry>)
    requires SameUnsaved(before, after)
    ensures (forall i :: 0 <= i < |before| ==> !before[i].Unsaved()) ==> forall i :: 0 <= i < |after| ==>
            !after[i].Unsaved()
  {}

  lemma RepresentsFacts(entries: seq<Entry>, logical: Disk, data: Disk, generation: nat, k: int)
    requires Represents(entries, logical, data, generation, k)
    ensures |logical| == |data| && SameUnsaved(entries, entries)
  {}

  /** An entry with nothing to save agrees with the device, and leaving out an entry asks for less. */
  lemma HeldIsRight(entries: seq<Entry>, logical: Disk, data: Disk, generation: nat, index: nat)
    requires Represents(entries, logical, data, generation, -1) && index < |entries|
    ensures entries[index].state != Empty && !entries[index].Unsaved() ==>
              entries[index].sector < |logical| && logical[entries[index].sector] == data[entries[index].sector]
    ensures forall after, k :: Represents(after, logical, data, generation, -1) ==>
            Represents(after, logical, data, generation, k)
  {
    var e := entries[index];
    if e.state != Empty && !e.Unsaved() {
      forall i | 0 <= i < |entries| && entries[i].Unsaved() ensures entries[i].sector != e.sector {
        assert i < index || index < i;
      }
      assert !DirtySector(entries, e.sector);
    }
  }

  lemma DirtySectorIsHeld(entries: seq<Entry>, s: nat)
    ensures DirtySector(entries, s) ==> exists i :: 0 <= i < |entries| && entries[i].Holds(s)
  {
    if DirtySector(entries, s) {
      var i :| 0 <= i < |entries| && entries[i].Unsaved() && entries[i].sector == s;
      assert entries[i].Holds(s);
    }
  }
}
