/**
  The virtio block driver: request slots over one split virtqueue, and the device on its other side.
  The driver keeps its books for any device; for a device that follows the protocol the two rings
  carry every request there and back, in spite of the 16-bit indices and the reuse of ring entries.
*/
module Virtio {
  import opened Bytes
  import opened Collections
  import opened Status
  import opened VirtioQueue

  class Driver {
    const sectorCount: u64
    // places that have no bus address
    const unmapped: set<Address>
    var slots: seq<Slot>
    var outstanding: nat
    var ready: bool
    var descriptors: seq<Descriptor>
    var headers: seq<Header>
    var ring: seq<nat>
    var availableIndex: u16
    var lastUsedIndex: u16
    // written by the device
    var statuses: seq<Byte>
    var usedRing: seq<nat>
    var usedIndex: u16
    // every publication and every completion so far
    ghost var published: seq<nat>
    ghost var done: seq<nat>
    // what the device has read from the available ring, and what it has put in the used ring
    ghost var consumed: nat
    ghost var returned: seq<nat>

    ghost predicate Valid()
      reads this
    {
      && Sized()
      && Books(slots, outstanding, ready, published, done, descriptors, headers)
      && availableIndex == Wrapped(|published|) && lastUsedIndex == Wrapped(|done|)
      && HoldsRecent(ring, published)
    }

    ghost predicate Sized()
      reads this
    {
      && 0 < |slots| && |headers| == |statuses| == |slots| && 3 * |slots| <= |descriptors|
      && PowerOfTwo(|descriptors|) && |ring| == |usedRing| == |descriptors|
    }

    /** So far the device has read entries in order and returned only what it had read. */
    ghost predicate Conforming()
      reads this
    {
      Follows(published, done, consumed, returned, usedRing, usedIndex)
    }

    constructor (capacity: nat, sectorCount: u64, unmapped: set<Address>)
      requires 0 < capacity && 3 * capacity <= DESCRIPTOR_LIMIT
      ensures Valid() && Conforming() && ready && this.sectorCount == sectorCount && this.unmapped == unmapped
      ensures slots == seq(capacity, _ => Free) && published == [] && done == []
    {
      var size := NextPowerOfTwo(3 * capacity);
      this.sectorCount, this.unmapped := sectorCount, unmapped;
      slots, outstanding, ready := seq(capacity, _ => Free), 0, true;
      descriptors := seq(size, _ => Descriptor(HeaderOf(0), 0, false, false, 0));
      headers := seq(capacity, _ => Header(Other(0), 0));
      ring, availableIndex, lastUsedIndex := seq(size, _ => 0), 0, 0;
      statuses, usedRing, usedIndex := seq(capacity, _ => 0xff), seq(size, _ => 0), 0;
      published, done, consumed, returned := [], [], 0, [];
      new;
      NewBooks(slots, descriptors, headers);
    }

    /** The smallest power of two that is not below the value, as far as the table goes. */
    static method NextPowerOfTwo(value: nat) returns (size: nat)
      ensures PowerOfTwo(size)
      ensures value <= DESCRIPTOR_LIMIT ==> value <= size && forall n: nat :: PowerOfTwo(n) && value <= n ==> size <= n
      ensures value > DESCRIPTOR_LIMIT ==> size == DESCRIPTOR_LIMIT
    {
      size := 1;
      while size < value && size < DESCRIPTOR_LIMIT
        invariant PowerOfTwo(size) && forall n: nat :: PowerOfTwo(n) && n < size ==> n < value
        decreases DESCRIPTOR_LIMIT - size
      {
        size := size * 2;
      }
    }

    /** What the arguments of a request allow, before any slot is looked for. */
    function Check(kind: Kind, sector: u64, buffer: Option<u64>, bytes: nat): Status
      reads this
    {
      if !ready then InvalidState
      else if kind.Other? then NotSupported
      else if kind.Flush? then
        if buffer != None || bytes != 0 then InvalidArgument else Ok
      else if buffer == None || bytes != SECTOR_SIZE || sector >= sectorCount then OutOfRange
      else Ok
    }

    /** Header, status byte and data of the request, if it has data, have bus addresses. */
    predicate Mapped(id: nat, kind: Kind, buffer: Option<u64>) {
      HeaderOf(id) !in unmapped && StatusOf(id) !in unmapped && (!kind.Flush? ==> DataOf(buffer) !in unmapped)
    }

    /** Takes the first free slot and publishes the request; a request that cannot be published leaves no trace. */
    method Submit(kind: Kind, sector: u64, buffer: Option<u64>, bytes: nat, generation: u32)
      returns (status: Status, id: nat)
      requires Valid()
      modifies this`slots, this`outstanding, this`descriptors, this`headers, this`statuses
      modifies this`ring, this`availableIndex, this`published
      ensures Valid() && |slots| == |old(slots)|
      ensures status == InvalidState <==> !ready
      ensures status == NotSupported <==> ready && kind.Other?
      ensures status == InvalidArgument <==> ready && kind.Flush? && (buffer != None || bytes != 0)
      ensures status == OutOfRange <==>
              ready && (kind.Read? || kind.Write?) && (buffer == None || bytes != 512 || sector >= sectorCount)
      ensures status !in {InvalidState, NotSupported, InvalidArgument, OutOfRange} ==>
              if forall i :: 0 <= i < |old(slots)| ==> !old(slots)[i].Free? then status == WouldBlock
              else
                && id < |slots| && old(slots)[id].Free? && (forall i :: 0 <= i < id ==> !old(slots)[i].Free?)
                && status == if Mapped(id, kind, buffer) then Ok else Io
      ensures status == Ok ==>
              && id < |slots| && slots == old(slots)[id := Pending(Request(kind, sector, buffer, generation))]
              && published == old(published) + [id]
      ensures status != Ok ==> slots == old(slots) && published == old(published)
      ensures |statuses| == |old(statuses)|
      ensures forall i ::
                0 <= i < |statuses| && (if status == Ok then i != id else !old(slots)[i].Free?) ==>
                statuses[i] == old(statuses)[i]
      ensures old(Conforming()) ==> Conforming()
    {
      hide PendingIds, Books, HoldsRecent, Describes, PowerOfTwo, Entry, Wrapped, Follows;
      id := 0;
      status := Check(kind, sector, buffer, bytes);
      if status != Ok {
        return;
      }
      while id < |slots| && !slots[id].Free?
        invariant id <= |slots| && forall i :: 0 <= i < id ==> !slots[i].Free?
      {
        id := id + 1;
      }
      if id == |slots| {
        return WouldBlock, id;
      }
      var r := Request(kind, sector, buffer, generation);
      ghost var layout, heads := descriptors, headers;
      status := Publish(id, r);
      BooksPublished(slots, outstanding, ready, old(published), done, layout, heads, descriptors, headers, id, r);
      if status != Ok {
        return;
      }
      if old(Conforming()) {
        FollowsPublished(old(published), done, consumed, returned, usedRing, usedIndex, id);
      }
      outstanding := outstanding + 1;
      slots := slots[id := Pending(r)];
    }

    /** Lays out the chain of a request, puts its head into the available ring, and moves the index. */
    method Publish(id: nat, r: Request) returns (status: Status)
      requires id < |headers| == |statuses| && PowerOfTwo(|descriptors|) && |ring| == |descriptors|
      requires availableIndex == Wrapped(|published|) && HoldsRecent(ring, published)
      modifies this`descriptors, this`headers, this`statuses, this`ring, this`availableIndex, this`published
      ensures |headers| == |old(headers)| && |statuses| == |old(statuses)|
      ensures |descriptors| == |old(descriptors)| && |ring| == |old(ring)|
      ensures availableIndex == Wrapped(|published|) && HoldsRecent(ring, published)
      ensures 3 * id + 2 >= |descriptors| ==> status == InvalidArgument
      ensures 3 * id + 2 < |descriptors| ==> status == if Mapped(id, r.kind, r.buffer) then Ok else Io
      ensures published == if status == Ok then old(published) + [id] else old(published)
      ensures status == Ok ==> 3 * id + 2 < |descriptors| && Describes(descriptors, headers, id, r)
      ensures forall k :: 0 <= k < |descriptors| && !(3 * id <= k <= 3 * id + 2) ==>
              descriptors[k] == old(descriptors)[k]
      ensures forall k :: 0 <= k < |headers| && k != id ==>
              headers[k] == old(headers)[k] && statuses[k] == old(statuses)[k]
    {
      hide HoldsRecent, PowerOfTwo, Entry, Wrapped, Describes;
      if 3 * id + 2 >= |descriptors| {
        return InvalidArgument;
      }
      status := LayOut(id, r);
      if status != Ok {
        return;
      }
      WrapsEvenly(|published|, |ring|);
      WrappedNext(|published|);
      RingGrows(ring, published, id);
      ring := ring[Entry(availableIndex, |ring|) := 3 * id];
      availableIndex := (availableIndex + 1) % WRAP;
      published := published + [id];
    }

    /** Header, status and the two or three descriptors of a request. */
    method LayOut(id: nat, r: Request) returns (status: Status)
      requires id < |headers| == |statuses| && 3 * id + 2 < |descriptors|
      modifies this`descriptors, this`headers, this`statuses
      ensures |headers| == |old(headers)| && |statuses| == |old(statuses)| && |descriptors| == |old(descriptors)|
      ensures status == (if Mapped(id, r.kind, r.buffer) then Ok else Io)
      ensures status == Ok ==> Describes(descriptors, headers, id, r)
      ensures forall k :: 0 <= k < |descriptors| && !(3 * id <= k <= 3 * id + 2) ==>
              descriptors[k] == old(descriptors)[k]
      ensures forall k :: 0 <= k < |headers| && k != id ==>
              headers[k] == old(headers)[k] && statuses[k] == old(statuses)[k]
    {
      headers := headers[id := Header(r.kind, r.sector)];
      statuses := statuses[id := 0xff];
      status := SetDescriptor(3 * id, HeaderOf(id), 16, true, false, if r.kind.Flush? then 3 * id + 2 else 3 * id + 1);
      if status != Ok {
        return;
      }
      if !r.kind.Flush? {
        status := SetDescriptor(3 * id + 1, DataOf(r.buffer), SECTOR_SIZE, true, r.kind.Read?, 3 * id + 2);
        if status != Ok {
          return;
        }
      }
      status := SetDescriptor(3 * id + 2, StatusOf(id), 1, false, true, 0);
    }

    /** Fills one descriptor unless its buffer has no bus address. */
    method SetDescriptor(index: nat, address: Address, length: nat, chained: bool, writable: bool, next: nat)
      returns (status: Status)
      requires index < |descriptors|
      modifies this`descriptors
      ensures status == if address in unmapped then Io else Ok
      ensures descriptors == if status == Ok
              then old(descriptors)[index := Descriptor(address, length, chained, writable, next)]
                             else old(descriptors)
    {
      if address in unmapped {
        return Io;
      }
      descriptors := descriptors[index := Descriptor(address, length, chained, writable, next)];
      status := Ok;
    }

    /** The used entry that the driver looks at next names a pending request. */
    lemma NextIsReturned()
      requires Valid() && Conforming() && lastUsedIndex != usedIndex
      ensures |done| < |returned| && usedRing[Entry(|done|, |usedRing|)] == 3 * returned[|done|]
      ensures Follows(published, done + [returned[|done|]], consumed, returned, usedRing, usedIndex)
      ensures ready ==> returned[|done|] in PendingIds(slots)
    {
      hide PendingIds, BusyIds, HoldsRecent, Describes, PowerOfTwo, Entry, Wrapped;
      FollowsTaken(published, done, consumed, returned, usedRing, usedIndex);
      assert published == published[..consumed] + published[consumed..];
      if ready {
        NextIsPending(published, done, PendingIds(slots), returned);
      }
    }

    /** When the indices agree, nothing the device has returned is left. */
    lemma AllTaken()
      requires Valid() && Conforming() && ready && lastUsedIndex == usedIndex
      ensures done == returned
    {
      hide PendingIds, BusyIds, HoldsRecent, Describes, Entry, Wrapped;
      ReturnedFits();
      SameIndex(|done|, |returned|);
    }

    /** The device has never returned more than one ring beyond what the driver has taken in. */
    lemma ReturnedFits()
      requires Valid() && Conforming() && ready
      ensures |returned| <= consumed <= |published| <= |done| + |slots|
    {
      hide PendingIds, BusyIds, HoldsRecent, Describes, PowerOfTwo, Entry, Wrapped;
      var answered, read := multiset(returned), multiset(published[..consumed]);
      assert read == answered + (read - answered);
      IndicesCount(published, done, PendingIds(slots), ready);
      PendingAreSlots(slots);
    }

    /** Marks one request as finished by the device. */
    method Complete(id: nat, deviceStatus: Byte) returns (status: Status)
      modifies this`slots
      ensures status == if id >= |old(slots)| then InvalidArgument else if old(slots)[id].Pending? then Ok
              else InvalidState
      ensures slots == if status == Ok then old(slots)[id := Done(old(slots)[id].request, Outcome(deviceStatus))]
              else old(slots)
      ensures Outcome(deviceStatus) == match deviceStatus case 0 => Ok case 2 => NotSupported case _ => Io
    {
      if id >= |slots| {
        return InvalidArgument;
      }
      if !slots[id].Pending? {
        return InvalidState;
      }
      slots := slots[id := Done(slots[id].request, Outcome(deviceStatus))];
      status := Ok;
    }

    /** Takes in one used entry; a bad identifier or one of a request that is not pending is refused. */
    method TakeOne() returns (status: Status)
      requires Valid() && lastUsedIndex != usedIndex
      modifies this`slots, this`lastUsedIndex, this`done
      ensures Valid() && status in {Ok, Protocol, InvalidState}
      ensures status != Ok ==> slots == old(slots) && done == old(done)
      ensures status == Ok ==> |done| == |old(done)| + 1 && old(done) <= done
      ensures status == Ok ==> Finished(old(slots), slots, [done[|old(done)|]], statuses)
      ensures status == Ok ==> |PendingIds(slots)| < |old(PendingIds(slots))|
      ensures old(Conforming()) ==> Conforming()
      ensures old(Conforming()) && ready ==> status == Ok
    {
      hide PendingIds, Books, HoldsRecent, Describes, PowerOfTwo, Entry, Wrapped, Follows, Finished;
      WrapsEvenly(|done|, |usedRing|);
      WrappedNext(|done|);
      var identifier := usedRing[Entry(lastUsedIndex, |usedRing|)];
      if old(Conforming()) {
        NextIsReturned();
      }
      if identifier >= |descriptors| || identifier % 3 != 0 {
        return Protocol;
      }
      var id := identifier / 3;
      if id >= |slots| {
        return Protocol;
      }
      ghost var before := slots;
      status := Complete(id, statuses[id]);
      if status != Ok {
        return;
      }
      BooksTaken(before, outstanding, ready, published, done, descriptors, headers, id, Outcome(statuses[id]));
      FinishedOne(before, id, statuses);
      lastUsedIndex := (lastUsedIndex + 1) % WRAP;
      done := done + [id];
    }

    /** Takes in what the device has put into the used ring. */
    method Service(healthy: bool) returns (status: Status)
      requires Valid()
      modifies this`slots, this`lastUsedIndex, this`done
      ensures Valid() && old(done) <= done
      ensures Finished(old(slots), slots, done[|old(done)|..], statuses)
      ensures status in {Ok, Io, Protocol, InvalidState} && (status == Io <==> !healthy)
      ensures !healthy ==> done == old(done)
      ensures status == Ok ==> lastUsedIndex == usedIndex
      ensures old(Conforming()) ==> Conforming()
      ensures old(Conforming()) && ready && healthy ==> status == Ok && done == returned
    {
      hide PendingIds, Books, HoldsRecent, Describes, PowerOfTwo, Entry, Wrapped, Follows;
      if !healthy {
        return Io;
      }
      hide Valid, Conforming;
      while lastUsedIndex != usedIndex
        invariant Valid() && old(done) <= done
        invariant Finished(old(slots), slots, done[|old(done)|..], statuses)
        invariant old(Conforming()) ==> Conforming()
        decreases |PendingIds(slots)|
      {
        ghost var before, doneBefore := slots, done;
        status := TakeOne();
        if status != Ok {
          return;
        }
        FinishedMore(old(slots), before, slots, doneBefore[|old(done)|..], done[|doneBefore|], statuses);
        assert done[|old(done)|..] == doneBefore[|old(done)|..] + [done[|doneBefore|]];
      }
      status := Ok;
      if old(Conforming()) && ready {
        AllTaken();
      }
    }

    /**
      Asks for the result of a request.  `after` is the table as the used ring left it: a finished request
      is reported once and its slot is free again, and in every other case the slot stays.
    */
    method Poll(id: nat, healthy: bool) returns (status: Status, generation: Option<u32>, ghost after: seq<Slot>)
      requires Valid()
      modifies this`slots, this`outstanding, this`lastUsedIndex, this`done
      ensures Valid() && old(done) <= done && Finished(old(slots), after, done[|old(done)|..], statuses)
      ensures id >= |old(slots)| || !old(slots)[id].Pending? ==> done == old(done)
      ensures generation.Some? ==>
              id < |after| && after[id].Done?
                && (status, generation) == (after[id].result, Some(after[id].request.generation))
      ensures slots == if generation.Some? then after[id := Free] else after
      ensures generation.None? ==>
              || status == PollError(old(slots), after, id)
              || (id < |old(slots)| && old(slots)[id].Pending? && status in {Io, Protocol, InvalidState}
                  && (status == Io <==> !healthy))
      ensures old(Conforming()) ==> Conforming()
      ensures old(Conforming()) && ready && healthy && id < |old(slots)| && old(slots)[id].Pending? ==>
              (generation.Some? <==> id in returned[|old(done)|..])
      ensures old(Conforming()) && ready && healthy && id < |old(slots)| && old(slots)[id].Pending?
              && generation.None? ==>
              status == WouldBlock
    {
      hide Books, HoldsRecent, Describes, PowerOfTwo, Entry, Wrapped, Follows, PendingIds;
      generation := None;
      after := slots;
      if id >= |slots| {
        return InvalidArgument, None, after;
      }
      if slots[id].Pending? {
        status := Service(healthy);
        after := slots;
        if status != Ok {
          return;
        }
        if slots[id].Pending? {
          return WouldBlock, None, after;
        }
      }
      if !slots[id].Done? {
        return InvalidState, None, after;
      }
      status, generation := slots[id].result, Some(slots[id].request.generation);
      BooksFreed(slots, outstanding, ready, published, done, descriptors, headers, id);
      slots := slots[id := Free];
      outstanding := outstanding - 1;
    }

    /** Gives up on the device: everything pending ends with the given error. */
    method Fail(status: Status)
      requires Valid()
      modifies this`slots, this`ready
      ensures Valid() && (old(Conforming()) ==> Conforming())
      ensures status == Ok ==> slots == old(slots) && ready == old(ready)
      ensures status != Ok ==> !ready && Abandoned(old(slots), slots, status)
    {
      hide Books, HoldsRecent, Describes, PowerOfTwo, Entry, Wrapped, Follows, PendingIds;
      if status == Ok {
        return;
      }
      for i := 0 to |slots|
        invariant |slots| == |old(slots)| && ready == old(ready)
        invariant forall k :: i <= k < |slots| ==> slots[k] == old(slots)[k]
        invariant forall k :: 0 <= k < i ==>
                    slots[k] == if old(slots)[k].Pending? then Done(old(slots)[k].request, status) else old(slots)[k]
      {
        if slots[i].Pending? {
          slots := slots[i := Done(slots[i].request, status)];
        }
      }
      BooksClosed(old(slots), slots, outstanding, ready, published, done, descriptors, headers, status);
      ready := false;
    }

    /** The counter counts the slots in use, and the two indices differ by the number of pending requests. */
    lemma CountsAgree()
      requires Valid()
      ensures outstanding == |BusyIds(slots)|
      ensures |PendingIds(slots)| <= outstanding
      ensures ready ==> (availableIndex - lastUsedIndex) % WRAP == |PendingIds(slots)|
    {
      hide HoldsRecent, Describes, Wrapped, Balanced, PendingIds, BusyIds;
      PendingAreSlots(slots);
      IndicesCount(published, done, PendingIds(slots), ready);
      PendingAreBusy(slots);
    }

    // ----- the device -----------------------------------------------------------------------------

    /** The indices tell a correct device exactly whether there is an entry that it has not read. */
    lemma IndexTells()
      requires Valid() && Conforming() && ready
      ensures Wrapped(consumed) != availableIndex <==> consumed < |published|
    {
      hide PendingIds, BusyIds, HoldsRecent, Describes, Entry, Wrapped;
      ReturnedFits();
      SameIndex(consumed, |published|);
    }

    /** The next entry for the device has not been overwritten and belongs to a pending request. */
    lemma NextUnread()
      requires Valid() && Conforming() && ready && consumed < |published|
      ensures ring[Entry(consumed, |ring|)] == 3 * published[consumed] && published[consumed] in PendingIds(slots)
      ensures Follows(published, done, consumed + 1, returned, usedRing, usedIndex)
    {
      hide PendingIds, BusyIds, Describes, Entry, Wrapped;
      ReturnedFits();
      UnreadIsPending(published, done, PendingIds(slots), consumed, returned);
      FollowsRead(published, done, consumed, returned, usedRing, usedIndex);
    }

    /**
      The device, which has its own 16-bit index, reads the next available entry.  The entry has not been
      overwritten, and its chain shows the device the request that was published and is still pending.
    */
    method DeviceReads(seen: u16) returns (id: nat)
      requires Valid() && Conforming() && ready && seen == Wrapped(consumed) && availableIndex != seen
      modifies this`consumed
      ensures Valid() && Conforming() && consumed == old(consumed) + 1 <= |published|
      ensures id == published[old(consumed)] && id < |slots| && slots[id].Pending?
      ensures Followed(descriptors, ring[Entry(old(consumed), |ring|)], |descriptors|) ==
                Presented(id, slots[id].request)
    {
      hide PendingIds, BusyIds, Balanced, Describes, Entry, Wrapped, Follows, Followed, Presented, HoldsRecent;
      IndexTells();
      NextUnread();
      WrapsEvenly(consumed, |ring|);
      var head := ring[Entry(seen, |ring|)];
      id := head / 3;
      DescribedIsPresented(descriptors, headers, id, slots[id].request);
      consumed := consumed + 1;
    }

    /** The device hands back one of the requests it has read, in any order; the driver sees it in its turn. */
    method DeviceReturns(id: nat, deviceStatus: Byte)
      requires Valid() && Conforming() && ready && id < |slots|
      requires multiset(returned)[id] < multiset(published[..consumed])[id]
      modifies this`usedRing, this`usedIndex, this`statuses, this`returned
      ensures Valid() && Conforming() && returned == old(returned) + [id]
              && statuses == old(statuses)[id := deviceStatus]
    {
      hide PendingIds, Books, Describes, Entry, Wrapped, Follows, HoldsRecent, PowerOfTwo;
      ReturnedFits();
      FollowsReturned(published, done, consumed, returned, usedRing, usedIndex, id);
      statuses := statuses[id := deviceStatus];
      WrapsEvenly(|returned|, |usedRing|);
      usedRing := usedRing[Entry(usedIndex, |usedRing|) := 3 * id];
      usedIndex := (usedIndex + 1) % WRAP;
      returned := returned + [id];
    }
  }
}
