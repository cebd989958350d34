/**
  The generation layer over the cache: which components are dirty, and when success may be reported.
*/
module Sync {
  import opened Bytes
  import opened Status
  import opened BlockDevice
  import opened BlockCache

  datatype Component = Content | Allocation | PrimaryRecord | CompanionRecord | Registry

  const LAST_GENERATION := 0xffff_ffff_ffff_ffff

  class SyncLayer {
    const cache: Cache
    var generation: nat
    var durableGeneration: nat
    var dirtyComponents: set<Component>
    var lastResult: Status

    ghost predicate Valid()
      reads this, cache, cache.device
    {
      && cache.Valid() && generation == cache.currentGeneration
      && (dirtyComponents == {} ==> cache.AllSaved())
      && (lastResult == Ok && dirtyComponents == {} ==> cache.device.Quiet())
    }

    ghost function State(): Below
      reads this, cache, cache.device, cache.device.log
    {
      Below(cache.device.log.faults, cache.Full(), generation == LAST_GENERATION, cache.device.readOnly)
    }

    /** The storage below gave this answer, and had reason to. */
    ghost predicate Blamed(status: Status)
      reads this, cache, cache.device, cache.device.log
    {
      State().Excuses(status)
    }

    /** The files' view of the volume: every accepted write, persisted or not. */
    ghost function Logical(): Disk
      reads this, cache
    {
      cache.logical
    }

    constructor (cache: Cache)
      requires cache.Valid() && cache.AllSaved() && cache.device.Quiet()
      ensures Valid() && this.cache == cache
    {
      this.cache := cache;
      generation := cache.currentGeneration;
      durableGeneration := 0;
      dirtyComponents := {};
      lastResult := Ok;
    }

    method Read(sector: nat) returns (status: Status, bytes: Sector)
      requires Valid()
      modifies cache`entries, cache`useClock, cache.device.log
      ensures Valid()
      ensures status == Ok ==> sector < |Logical()| && bytes == Logical()[sector]
      ensures status in {Ok, OutOfRange, WouldBlock, Io} && (status == OutOfRange <==> sector >= |Logical()|)
      ensures status == WouldBlock <==> sector < |Logical()| && !Held(old(cache.entries), sector) && old(cache.Full())
      ensures cache.device.log.faults == old(cache.device.log.faults) + if status == Io then 1 else 0
      ensures cache.Full() == old(cache.Full())
      ensures sector < |Logical()| ==> status == Ok || Blamed(status)
    {
      status, bytes := cache.Read(sector);
    }

    method WriteSector(sector: nat, bytes: Sector, component: Component) returns (status: Status)
      requires Valid()
      modifies this`dirtyComponents, this`lastResult, cache`entries, cache`useClock, cache`logical, cache.device.log
      ensures Valid() && cache.device.log.faults == old(cache.device.log.faults)
      ensures status in {Ok, OutOfRange, WouldBlock, ReadOnly} && (status == ReadOnly <==> cache.device.readOnly)
      ensures status == OutOfRange <==> status != ReadOnly && sector >= |old(Logical())|
      ensures status == WouldBlock <==>
              && status != ReadOnly && sector < |old(Logical())|
              && !Held(old(cache.entries), sector) && old(cache.Full())
      ensures status == Ok ==> sector < |old(Logical())| && Logical() == old(Logical())[sector := bytes]
      ensures status != Ok ==> Logical() == old(Logical()) && lastResult == status
      ensures sector < |old(Logical())| ==> status == Ok || Blamed(status)
    {
      status := cache.Write(sector, bytes, generation);
      if status.Failed() {
        lastResult := status;
        return;
      }
      dirtyComponents := dirtyComponents + {component};
    }

    /** Success means that the device holds, for good, every sector as clients see it. */
    method Barrier() returns (status: Status)
      requires Valid()
      modifies this, cache`entries, cache`currentGeneration
      modifies cache.device`data, cache.device`maybe, cache.device`exposed, cache.device.log
      ensures Valid()
      ensures status in {Ok, Overflow, ReadOnly, Io}
      ensures status == Overflow <==> old(generation) == LAST_GENERATION
      ensures status == ReadOnly <==>
              && status != Overflow && cache.device.readOnly
              && SomeDue(old(cache.entries), |cache.entries|, old(generation))
      ensures old(cache.device.log.faults) <= cache.device.log.faults
      ensures status == Io <==> old(cache.device.log.faults) < cache.device.log.faults
      ensures status == Ok || Blamed(status)
      ensures status == Ok ==>
              && cache.device.Quiet() && cache.device.data == Logical()
              && durableGeneration == old(generation) && lastResult == Ok && dirtyComponents == {}
      ensures status != Ok ==> lastResult == status
      ensures Contained(old(cache.device.maybe), old(cache.device.exposed),
                        cache.device.maybe, cache.device.exposed, Logical())
    {
      hide Represents, SomeDue;
      RepresentsFacts(cache.entries, cache.logical, cache.device.data, cache.currentGeneration, -1);
      if generation == LAST_GENERATION {
        lastResult := Overflow;
        return Overflow;
      }
      status := cache.Barrier(generation);
      lastResult := status;
      if status.Failed() {
        return;
      }
      durableGeneration := generation;
      dirtyComponents := {};
      var next;
      status, next := cache.AdvanceGeneration();
      if status.Failed() {
        assert false; // the overflow test above already covers the cache's own
      }
      generation := next;
    }

    /**
      What the rest of the system may conclude from a durable result of OK: the device equals the
      logical map and that is the only image a power cut can leave.
    */
    method DurableResult() returns (status: Status)
      requires Valid()
      ensures status == Ok <==> lastResult == Ok && dirtyComponents == {}
      ensures status != Ok ==> status == if lastResult == Ok then WouldBlock else lastResult
      ensures status == Ok ==>
              && cache.device.data == Logical()
              && forall d :: cache.device.Possible(d) ==> d == Logical()
    {
      if lastResult.Failed() {
        return lastResult;
      }
      if dirtyComponents == {} {
        QuietMeansSettled(cache);
        return Ok;
      }
      return WouldBlock;
    }
  }

  lemma QuietMeansSettled(cache: Cache)
    requires cache.Valid() && cache.AllSaved() && cache.device.Quiet()
    ensures cache.device.data == cache.logical
    ensures forall d :: cache.device.Possible(d) ==> d == cache.logical
  {
    assert forall s :: 0 <= s < |cache.logical| ==> !DirtySector(cache.entries, s);
    forall d | cache.device.Possible(d) ensures d == cache.logical {
      forall s | 0 <= s < |d| ensures d[s] == cache.logical[s] {
        assert d[s] in cache.device.maybe[s];
      }
    }
  }
}
