/**
  The values behind a split virtqueue: request slots, descriptor chains, the two rings with their
  16-bit indices, and the ledger of what was published and what came back.
*/
module VirtioQueue {
  import opened Bytes
  import opened Collections
  import opened Status

  const WRAP := 0x1_0000
  const DESCRIPTOR_LIMIT := 256

  datatype Kind = Read | Write | Flush | Other(code: u32)

  datatype Request = Request(kind: Kind, sector: u64, buffer: Option<u64>, generation: u32)

  /** A slot of the request table: unused, published to the device, or finished and not yet polled. */
  datatype Slot = Free | Pending(request: Request) | Done(request: Request, result: Status)

  datatype Address = HeaderOf(id: nat) | DataOf(buffer: Option<u64>) | StatusOf(id: nat)

  datatype Descriptor = Descriptor(address: Address, length: nat, chained: bool, writable: bool, next: nat)

  datatype Header = Header(kind: Kind, sector: u64)

  predicate PowerOfTwo(n: nat) {
    n in {1, 2, 4, 8, 16, 32, 64, 128, 256}
  }

  ghost function PendingIds(slots: seq<Slot>): (ids: set<nat>)
    ensures forall i :: i in ids <==> 0 <= i < |slots| && slots[i].Pending?
  {
    set i: nat | i < |slots| && slots[i].Pending?
  }

  ghost function BusyIds(slots: seq<Slot>): (ids: set<nat>) {
    set i: nat | i < |slots| && !slots[i].Free?
  }

  lemma SlotChanged(slots: seq<Slot>, i: nat, s: Slot)
    requires i < |slots|
    ensures PendingIds(slots[i := s]) == if s.Pending? then PendingIds(slots) + {i} else PendingIds(slots) - {i}
    ensures BusyIds(slots[i := s]) == if s.Free? then BusyIds(slots) - {i} else BusyIds(slots) + {i}
  {}

  lemma {:induction false} PendingAreSlots(slots: seq<Slot>)
    ensures |PendingIds(slots)| <= |slots|
  {
    if slots == [] {
      assert PendingIds(slots) == {};
    } else {
      var front := slots[..|slots| - 1];
      PendingAreSlots(front);
      assert PendingIds(slots) <= PendingIds(front) + {|slots| - 1};
      SubsetSize(PendingIds(slots), PendingIds(front) + {|slots| - 1});
    }
  }

  lemma PendingAreBusy(slots: seq<Slot>)
    ensures |PendingIds(slots)| <= |BusyIds(slots)|
  {
    SubsetSize(PendingIds(slots), BusyIds(slots));
  }

  // ----- descriptor chains ------------------------------------------------------------------------

  /** The three descriptors of request `id` are laid out for `r`. */
  predicate Describes(descriptors: seq<Descriptor>, headers: seq<Header>, id: nat, r: Request)
    requires 3 * id + 2 < |descriptors| && id < |headers|
  {
    && headers[id] == Header(r.kind, r.sector)
    && descriptors[3 * id] ==
         Descriptor(HeaderOf(id), 16, true, false, if r.kind.Flush? then 3 * id + 2 else 3 * id + 1)
    && (!r.kind.Flush? ==>
          descriptors[3 * id + 1] == Descriptor(DataOf(r.buffer), SECTOR_SIZE, true, r.kind.Read?, 3 * id + 2))
    && descriptors[3 * id + 2] == Descriptor(StatusOf(id), 1, false, true, 0)
  }

  /** Publishing one request leaves the chains of all others alone. */
  lemma OthersStillDescribed(was: seq<Descriptor>, wasHeaders: seq<Header>, now: seq<Descriptor>,
                             nowHeaders: seq<Header>,
                             slots: seq<Slot>, id: nat)
    requires |was| == |now| && 3 * |slots| <= |was| && |slots| == |wasHeaders| == |nowHeaders| && id < |slots|
    requires forall k :: 0 <= k < |was| && !(3 * id <= k <= 3 * id + 2) ==> now[k] == was[k]
    requires forall k :: 0 <= k < |slots| && k != id ==> nowHeaders[k] == wasHeaders[k]
    requires forall i :: 0 <= i < |slots| && slots[i].Pending? ==> Describes(was, wasHeaders, i, slots[i].request)
    ensures forall i :: 0 <= i < |slots| && i != id && slots[i].Pending? ==>
            Describes(now, nowHeaders, i, slots[i].request)
  {
    forall i | 0 <= i < |slots| && i != id
      && slots[i].Pending? ensures Describes(now, nowHeaders, i, slots[i].request) {
      assert Describes(was, wasHeaders, i, slots[i].request);
    }
  }

  datatype Segment = Segment(address: Address, length: nat, writable: bool)

  /** What a device finds that follows a chain from descriptor `at`. */
  function Followed(descriptors: seq<Descriptor>, at: nat, budget: nat): seq<Segment>
    decreases budget
  {
    if budget == 0 || at >= |descriptors| then []
    else
      var d := descriptors[at];
      [Segment(d.address, d.length, d.writable)] + if d.chained then Followed(descriptors, d.next, budget - 1) else []
  }

  /** What a request should look like to the device: header, data unless it is a flush, status byte. */
  function Presented(id: nat, r: Request): seq<Segment> {
    [Segment(HeaderOf(id), 16, false)]
    + (if r.kind.Flush? then [] else [Segment(DataOf(r.buffer), SECTOR_SIZE, r.kind.Read?)])
    + [Segment(StatusOf(id), 1, true)]
  }

  lemma OneMore(descriptors: seq<Descriptor>, at: nat, budget: nat)
    requires at < |descriptors| && budget > 0
    ensures var d := descriptors[at];
      Followed(descriptors, at, budget) ==
        [Segment(d.address, d.length, d.writable)] + if d.chained then Followed(descriptors, d.next, budget - 1) else []
  {}

  lemma {:induction false} DescribedIsPresented(descriptors: seq<Descriptor>, headers: seq<Header>, id: nat, r: Request)
    requires 3 * id + 2 < |descriptors| && id < |headers| && Describes(descriptors, headers, id, r)
    ensures Followed(descriptors, 3 * id, |descriptors|) == Presented(id, r)
  {
    hide Followed;
    var n := |descriptors|;
    OneMore(descriptors, 3 * id, n);
    if !r.kind.Flush? {
      OneMore(descriptors, 3 * id + 1, n - 1);
      OneMore(descriptors, 3 * id + 2, n - 2);
    } else {
      OneMore(descriptors, 3 * id + 2, n - 1);
    }
  }

  // ----- rings ------------------------------------------------------------------------------------

  /** Where a count falls in a ring. */
  function Entry(count: nat, size: nat): (e: nat)
    requires size > 0
    ensures e < size
  {
    count % size
  }

  /** The 16-bit index that stands for a count. */
  function Wrapped(count: nat): u16 {
    count % WRAP
  }

  lemma WrappedNext(count: nat)
    ensures Wrapped(count + 1) == (Wrapped(count) + 1) % WRAP
  {}

  lemma SameIndex(a: nat, b: nat)
    requires a <= b < a + WRAP
    ensures Wrapped(a) == Wrapped(b) <==> a == b
  {}

  /** A 16-bit index and the unbounded count behind it fall on the same ring entry. */
  lemma WrapsEvenly(count: nat, size: nat)
    requires PowerOfTwo(size)
    ensures Entry(Wrapped(count), size) == Entry(count, size)
  {
    var q := count / WRAP;
    assert count == WRAP * q + count % WRAP;
    var k := WRAP / size;
    assert WRAP == size * k;
    ModAdd(count % WRAP, k * q, size);
    assert size * (k * q) == (size * k) * q;
  }

  lemma ModAdd(a: nat, times: nat, size: nat)
    requires size > 0
    ensures (a + size * times) % size == a % size
  {
    var q, r := a / size, a % size;
    assert a + size * times == size * (q + times) + r by {
      assert size * (q + times) == size * q + size * times;
    }
    ModUnique(a + size * times, size, q + times, r);
  }

  lemma ModUnique(x: nat, size: nat, q: nat, r: nat)
    requires 0 <= r < size && x == size * q + r
    ensures x % size == r
  {
    var d: int := q as int - x / size;
    assert size * d == size * q - size * (x / size);
    Multiple(size, d);
  }

  lemma Multiple(size: int, d: int)
    requires size >= 0
    ensures d >= 1 ==> size * d >= size
    ensures d <= 0 ==> size * d <= 0
    ensures d <= -1 ==> size * d <= -size
  {}

  /** Counts less than one ring apart never share an entry. */
  lemma Apart(p: nat, q: nat, size: nat)
    requires p < q < p + size
    ensures Entry(p, size) != Entry(q, size)
  {
    var d: int := q / size - p / size;
    assert size * d == size * (q / size) - size * (p / size);
    assert q - p == size * d + q % size - p % size;
    Multiple(size, d);
  }

  /** The last `|ring|` entries of `history` are in the ring. */
  ghost predicate HoldsRecent(ring: seq<nat>, history: seq<nat>)
    requires |ring| > 0
  {
    forall p :: 0 <= p < |history| && |history| - |ring| <= p ==> ring[Entry(p, |ring|)] == 3 * history[p]
  }

  lemma RingGrows(ring: seq<nat>, history: seq<nat>, id: nat)
    requires |ring| > 0 && HoldsRecent(ring, history)
    ensures HoldsRecent(ring[Entry(|history|, |ring|) := 3 * id], history + [id])
  {
    var n, now := |history|, ring[Entry(|history|, |ring|) := 3 * id];
    forall p | 0 <= p < n + 1 && n + 1 - |ring| <= p ensures now[Entry(p, |ring|)] == 3 * (history + [id])[p] {
      if p < n {
        Apart(p, n, |ring|);
      }
    }
  }

  // ----- the ledger -------------------------------------------------------------------------------

  /** Everything published came back once or is still pending; after a failure some is written off. */
  ghost predicate Balanced(published: seq<nat>, done: seq<nat>, pending: set<nat>, ready: bool) {
    && multiset(done) + multiset(pending) <= multiset(published)
    && (ready ==> multiset(done) + multiset(pending) == multiset(published))
  }

  lemma Published(published: seq<nat>, done: seq<nat>, pending: set<nat>, ready: bool, id: nat)
    requires Balanced(published, done, pending, ready) && id !in pending
    ensures Balanced(published + [id], done, pending + {id}, ready)
  {
    assert multiset(pending + {id}) == multiset(pending) + multiset{id};
  }

  lemma Returned(published: seq<nat>, done: seq<nat>, pending: set<nat>, ready: bool, id: nat)
    requires Balanced(published, done, pending, ready) && id in pending
    ensures Balanced(published, done + [id], pending - {id}, ready)
  {
    assert multiset(pending) == multiset(pending - {id}) + multiset{id};
  }

  lemma WrittenOff(published: seq<nat>, done: seq<nat>, pending: set<nat>, ready: bool)
    requires Balanced(published, done, pending, ready)
    ensures Balanced(published, done, {}, false)
  {}

  /** While the device works, the indices are as far apart as there are pending requests. */
  lemma IndicesCount(published: seq<nat>, done: seq<nat>, pending: set<nat>, ready: bool)
    requires Balanced(published, done, pending, ready)
    ensures |done| + |pending| <= |published|
    ensures ready ==> |published| - |done| == |pending|
    ensures ready && |pending| < WRAP ==> (Wrapped(|published|) - Wrapped(|done|)) % WRAP == |pending|
  {
    assert |multiset(done) + multiset(pending)| == |done| + |pending|;
    assert |multiset(published)| == |multiset(done) + multiset(pending)| +
      |multiset(published) - (multiset(done) + multiset(pending))|;
    if ready && |pending| < WRAP {
      DifferenceWraps(|published|, |done|);
    }
  }

  lemma DifferenceWraps(a: nat, b: nat)
    requires 0 <= a - b < WRAP
    ensures (Wrapped(a) - Wrapped(b)) % WRAP == a - b
  {}

  /** What a correct device returns next is pending, so the driver will take it. */
  lemma NextIsPending(published: seq<nat>, done: seq<nat>, pending: set<nat>, returned: seq<nat>)
    requires Balanced(published, done, pending, true)
    requires multiset(returned) <= multiset(published) && done <= returned && |done| < |returned|
    ensures returned[|done|] in pending
  {
    var id := returned[|done|];
    assert returned == done + [id] + returned[|done| + 1..];
    assert multiset(returned) == multiset(done) + multiset{id} + multiset(returned[|done| + 1..]);
    assert multiset(published)[id] > multiset(done)[id];
  }

  // ----- the device's side --------------------------------------------------------------------------

  /**
    The device has read `consumed` entries in order and returned only requests that it had read, each once;
    what the driver has not taken in yet stands in the used ring.
  */
  ghost predicate Follows(published: seq<nat>, done: seq<nat>, consumed: nat, returned: seq<nat>, usedRing: seq<nat>,
                          usedIndex: u16)
  {
    && |usedRing| > 0 && done <= returned && consumed <= |published| && usedIndex == Wrapped(|returned|)
    && multiset(returned) <= multiset(published[..consumed])
    && forall p :: |done| <= p < |returned| ==> usedRing[Entry(p, |usedRing|)] == 3 * returned[p]
  }

  lemma FollowsPublished(published: seq<nat>, done: seq<nat>, consumed: nat, returned: seq<nat>, usedRing: seq<nat>,
                         usedIndex: u16, id: nat)
    requires Follows(published, done, consumed, returned, usedRing, usedIndex)
    ensures Follows(published + [id], done, consumed, returned, usedRing, usedIndex)
  {
    assert (published + [id])[..consumed] == published[..consumed];
  }

  lemma FollowsTaken(published: seq<nat>, done: seq<nat>, consumed: nat, returned: seq<nat>, usedRing: seq<nat>,
                     usedIndex: u16)
    requires Follows(published, done, consumed, returned, usedRing, usedIndex) && Wrapped(|done|) != usedIndex
    ensures |done| < |returned| && usedRing[Entry(|done|, |usedRing|)] == 3 * returned[|done|]
    ensures Follows(published, done + [returned[|done|]], consumed, returned, usedRing, usedIndex)
  {
    hide Entry, Wrapped;
    assert |done| != |returned|;
  }

  lemma FollowsRead(published: seq<nat>, done: seq<nat>, consumed: nat, returned: seq<nat>, usedRing: seq<nat>,
                    usedIndex: u16)
    requires Follows(published, done, consumed, returned, usedRing, usedIndex) && consumed < |published|
    ensures Follows(published, done, consumed + 1, returned, usedRing, usedIndex)
  {
    assert published[..consumed + 1] == published[..consumed] + [published[consumed]];
  }

  /** The device may return a request it has read, as long as the used ring has room for it. */
  lemma FollowsReturned(published: seq<nat>, done: seq<nat>, consumed: nat, returned: seq<nat>, usedRing: seq<nat>,
                        usedIndex: u16, id: nat)
    requires Follows(published, done, consumed, returned, usedRing, usedIndex)
    requires multiset(returned)[id] < multiset(published[..consumed])[id] && |returned| < |done| + |usedRing|
    ensures usedIndex == Wrapped(|returned|)
    ensures Follows(published, done, consumed, returned + [id], usedRing[Entry(|returned|, |usedRing|) := 3 * id],
                    (usedIndex + 1) % WRAP)
  {
    hide Entry;
    var now := usedRing[Entry(|returned|, |usedRing|) := 3 * id];
    forall p | |done| <= p < |returned| + 1 ensures now[Entry(p, |usedRing|)] == 3 * (returned + [id])[p] {
      if p < |returned| {
        Apart(p, |returned|, |usedRing|);
      }
    }
  }

  /** Of a balanced ledger, what a correct device has not read yet is pending. */
  lemma UnreadIsPending(published: seq<nat>, done: seq<nat>, pending: set<nat>, consumed: nat, returned: seq<nat>)
    requires Balanced(published, done, pending, true) && consumed < |published|
    requires done <= returned && multiset(returned) <= multiset(published[..consumed])
    ensures published[consumed] in pending
  {
    var id := published[consumed];
    assert published == published[..consumed] + [id] + published[consumed + 1..];
    assert multiset(published) == multiset(published[..consumed]) + multiset{id} + multiset(published[consumed + 1..]);
    assert returned == done + returned[|done|..];
    assert multiset(published)[id] > multiset(done)[id];
  }

  // ----- completion -------------------------------------------------------------------------------

  /** How the device's status byte is reported. */
  function Outcome(deviceStatus: Byte): Status {
    if deviceStatus == 0 then Ok else if deviceStatus == 2 then NotSupported else Io
  }

  /** The requests in `ids` went from pending to done with the status the device left; no other slot changed. */
  ghost predicate Finished(before: seq<Slot>, after: seq<Slot>, ids: seq<nat>, statuses: seq<Byte>) {
    && |after| == |before| <= |statuses|
    && (forall id :: id in ids ==> id < |before|)
    && forall i :: 0 <= i < |before| ==>
         if i in ids then before[i].Pending? && after[i] == Done(before[i].request, Outcome(statuses[i]))
           else after[i] == before[i]
  }

  lemma FinishedOne(slots: seq<Slot>, id: nat, statuses: seq<Byte>)
    requires id < |slots| <= |statuses| && slots[id].Pending?
    ensures Finished(slots, slots[id := Done(slots[id].request, Outcome(statuses[id]))], [id], statuses)
  {}

  lemma FinishedMore(before: seq<Slot>, middle: seq<Slot>, after: seq<Slot>, ids: seq<nat>, id: nat,
                     statuses: seq<Byte>)
    requires Finished(before, middle, ids, statuses) && Finished(middle, after, [id], statuses)
    ensures Finished(before, after, ids + [id], statuses)
  {
    assert id in [id];
  }

  // ----- the books --------------------------------------------------------------------------------

  /** The count, the ledger and the descriptor chains all fit the slots. */
  ghost predicate Books(slots: seq<Slot>, outstanding: nat, ready: bool, published: seq<nat>, done: seq<nat>,
                        descriptors: seq<Descriptor>, headers: seq<Header>)
  {
    && |headers| == |slots| && 3 * |slots| <= |descriptors|
    && outstanding == |BusyIds(slots)|
    && Balanced(published, done, PendingIds(slots), ready)
    && forall i :: 0 <= i < |slots| && slots[i].Pending? ==> Describes(descriptors, headers, i, slots[i].request)
  }

  lemma NewBooks(slots: seq<Slot>, descriptors: seq<Descriptor>, headers: seq<Header>)
    requires |headers| == |slots| && 3 * |slots| <= |descriptors| && forall i :: 0 <= i < |slots| ==> slots[i].Free?
    ensures Books(slots, 0, true, [], [], descriptors, headers)
  {
    assert PendingIds(slots) == {} && BusyIds(slots) == {};
  }

  /** A request that was laid out for a free slot is published. */
  lemma BooksPublished(slots: seq<Slot>, outstanding: nat, ready: bool, published: seq<nat>, done: seq<nat>,
                       was: seq<Descriptor>, wasHeaders: seq<Header>, now: seq<Descriptor>, nowHeaders: seq<Header>,
                       id: nat, r: Request)
    requires Books(slots, outstanding, ready, published, done, was, wasHeaders) && id < |slots| && slots[id].Free?
    requires |was| == |now| && |nowHeaders| == |slots|
    requires forall k :: 0 <= k < |was| && !(3 * id <= k <= 3 * id + 2) ==> now[k] == was[k]
    requires forall k :: 0 <= k < |slots| && k != id ==> nowHeaders[k] == wasHeaders[k]
    ensures Books(slots, outstanding, ready, published, done, now, nowHeaders)
    ensures Describes(now, nowHeaders, id, r) ==>
              Books(slots[id := Pending(r)], outstanding + 1, ready, published + [id], done, now, nowHeaders)
  {
    hide Describes, Balanced;
    OthersStillDescribed(was, wasHeaders, now, nowHeaders, slots, id);
    SlotChanged(slots, id, Pending(r));
    Published(published, done, PendingIds(slots), ready, id);
  }

  lemma BooksTaken(slots: seq<Slot>, outstanding: nat, ready: bool, published: seq<nat>, done: seq<nat>,
                   descriptors: seq<Descriptor>, headers: seq<Header>, id: nat, result: Status)
    requires Books(slots, outstanding, ready, published, done, descriptors, headers) && id < |slots|
             && slots[id].Pending?
    ensures Books(slots[id := Done(slots[id].request, result)], outstanding, ready, published, done + [id], descriptors,
                  headers)
    ensures |PendingIds(slots[id := Done(slots[id].request, result)])| < |PendingIds(slots)|
  {
    hide Describes, Balanced;
    SlotChanged(slots, id, Done(slots[id].request, result));
    Returned(published, done, PendingIds(slots), ready, id);
    assert BusyIds(slots) + {id} == BusyIds(slots);
  }

  lemma BooksFreed(slots: seq<Slot>, outstanding: nat, ready: bool, published: seq<nat>, done: seq<nat>,
                   descriptors: seq<Descriptor>, headers: seq<Header>, id: nat)
    requires Books(slots, outstanding, ready, published, done, descriptors, headers) && id < |slots| && slots[id].Done?
    ensures outstanding > 0 && Books(slots[id := Free], outstanding - 1, ready, published, done, descriptors, headers)
  {
    hide Describes, Balanced;
    SlotChanged(slots, id, Free);
    assert PendingIds(slots) - {id} == PendingIds(slots) && id in BusyIds(slots);
  }

  lemma BooksClosed(slots: seq<Slot>, after: seq<Slot>, outstanding: nat, ready: bool, published: seq<nat>,
                    done: seq<nat>,
                    descriptors: seq<Descriptor>, headers: seq<Header>, status: Status)
    requires Books(slots, outstanding, ready, published, done, descriptors, headers) && Abandoned(slots, after, status)
    ensures Books(after, outstanding, false, published, done, descriptors, headers)
  {
    assert BusyIds(after) == BusyIds(slots) && PendingIds(after) == {};
    WrittenOff(published, done, PendingIds(slots), ready);
  }

  /** Every pending request has the given result now. */
  ghost predicate Abandoned(before: seq<Slot>, after: seq<Slot>, status: Status) {
    && |after| == |before|
    && forall i :: 0 <= i < |before| ==>
         after[i] == if before[i].Pending? then Done(before[i].request, status) else before[i]
  }

  /** Why a poll that reports no result fails, when the used ring itself is in order. */
  function PollError(before: seq<Slot>, after: seq<Slot>, id: nat): Status
    requires |after| == |before|
  {
    if id >= |before| then InvalidArgument
    else if before[id].Free? then InvalidState
    else WouldBlock
  }
}
