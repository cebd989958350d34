/**
  The block device behind the cache, with a volatile write buffer: a completed write is visible to
  reads at once but survives a power cut only after a flush.  Sector writes are atomic.
*/
module BlockDevice {
  import opened Bytes
  import opened Status

  /** Every sector of `d` has its value from `old` or from `new`: what an interrupted batch leaves. */
  ghost predicate Torn(before: Disk, after: Disk, d: Disk) {
    && |d| == |before| == |after|
    && forall s :: 0 <= s < |d| ==> d[s] == before[s] || d[s] == after[s]
  }

  /** Every sector of `d` has a value that was possible before or its value in `after`. */
  ghost predicate Between(maybe: seq<set<Sector>>, after: Disk, d: Disk) {
    && |d| == |maybe| == |after|
    && forall s :: 0 <= s < |d| ==> d[s] in maybe[s] || d[s] == after[s]
  }

  ghost predicate PossibleIn(maybe: seq<set<Sector>>, d: Disk) {
    |d| == |maybe| && forall s :: 0 <= s < |d| ==> d[s] in maybe[s]
  }

  /**
    Between then (`maybe0`, `exposed0`) and now, no sector could have been left with anything but
    an earlier possible value or its value in `after`.
  */
  ghost predicate Contained(maybe0: seq<set<Sector>>, exposed0: iset<Disk>,
                            maybe: seq<set<Sector>>, exposed: iset<Disk>, after: Disk) {
    && |maybe| == |maybe0| == |after|
    && (forall s :: 0 <= s < |maybe| ==> maybe[s] <= maybe0[s] + {after[s]})
    && (forall d :: d in exposed ==> d in exposed0 || Between(maybe0, after, d))
    && exposed0 <= exposed
  }

  lemma ContainedStep(maybe0: seq<set<Sector>>, exposed0: iset<Disk>, maybe: seq<set<Sector>>, exposed: iset<Disk>,
                      next: seq<set<Sector>>, nextExposed: iset<Disk>, after: Disk)
    requires Contained(maybe0, exposed0, maybe, exposed, after) && |next| == |maybe|
    requires forall s :: 0 <= s < |maybe| ==> next[s] <= maybe[s] + {after[s]}
    requires forall d :: d in nextExposed ==> d in exposed || PossibleIn(next, d)
    requires exposed <= nextExposed
    ensures Contained(maybe0, exposed0, next, nextExposed, after)
  {
    forall d | d in nextExposed ensures d in exposed0 || Between(maybe0, after, d) {
      if d !in exposed {
        forall s | 0 <= s < |d| ensures d[s] in maybe0[s] || d[s] == after[s] {
          assert d[s] in next[s];
          assert maybe[s] <= maybe0[s] + {after[s]};
        }
      }
    }
    forall s | 0 <= s < |maybe| ensures next[s] <= maybe0[s] + {after[s]} {
      assert maybe[s] <= maybe0[s] + {after[s]};
    }
  }

  /** How many transfers have failed since the count was last started over. */
  class FaultLog {
    ghost var faults: nat

    ghost constructor ()
      ensures faults == 0
    {
      faults := 0;
    }

    /** From here on only new faults count. */
    ghost method StartOver()
      modifies this
      ensures faults == 0
    {
      faults := 0;
    }
  }

  class Device {
    ghost const log: FaultLog
    const sectorCount: nat
    const readOnly: bool
    var data: Disk
    // per sector, every value that a power cut right now could leave behind
    ghost var maybe: seq<set<Sector>>
    // every disk image that a power cut at some moment of the watch could have left behind
    ghost var exposed: iset<Disk>
    // the same for all earlier watches
    ghost var past: iset<Disk>

    ghost predicate Valid()
      reads this
    {
      && |data| == |maybe| == sectorCount
      && (forall s :: 0 <= s < sectorCount ==> data[s] in maybe[s])
      && (forall d :: Possible(d) ==> d in exposed)
    }

    ghost predicate Possible(d: Disk)
      reads this
    {
      PossibleIn(maybe, d)
    }

    /** Every disk image that a power cut at any moment so far could have left behind. */
    ghost function History(): iset<Disk>
      reads this
    {
      past + exposed
    }

    /** Nothing is waiting for a flush: a power cut would leave exactly `data`. */
    ghost predicate Quiet()
      reads this
    {
      |data| == |maybe| && forall s :: 0 <= s < |maybe| ==> maybe[s] == {data[s]}
    }

    constructor (image: Disk, readOnly: bool)
      ensures Valid() && Quiet() && data == image && sectorCount == |image| && this.readOnly == readOnly
      ensures exposed == iset{image} && History() == iset{image} && fresh(log)
    {
      log := new FaultLog();
      this.sectorCount := |image|;
      this.readOnly := readOnly;
      data := image;
      maybe := seq(|image|, s requires 0 <= s < |image| => {image[s]});
      exposed, past := iset{image}, iset{};
      new;
      forall d | Possible(d) ensures d == image {
        assert forall s :: 0 <= s < |image| ==> d[s] in maybe[s];
      }
    }

    /** Starts the watch over; what earlier watches have seen stays in the history. */
    ghost method Watch()
      requires Valid() && Quiet()
      modifies this`exposed, this`past, log
      ensures Valid() && Quiet() && exposed == iset{data} && past == old(History()) == History()
      ensures log.faults == 0
    {
      log.StartOver();
      assert data in exposed by {
        assert Possible(data);
      }
      past := past + exposed;
      exposed := iset{data};
      forall d | Possible(d) ensures d == data {
        assert forall s :: 0 <= s < |d| ==> d[s] in maybe[s];
      }
    }

    method Read(sector: nat) returns (status: Status, bytes: Sector)
      requires Valid()
      modifies log
      ensures status in {Ok, OutOfRange, Io} && (status == OutOfRange <==> sector >= sectorCount)
      ensures status == Ok ==> bytes == data[sector]
      ensures log.faults == old(log.faults) + if status == Io then 1 else 0
    {
      bytes := Zeros(SECTOR_SIZE);
      if sector >= sectorCount {
        return OutOfRange, bytes;
      }
      var fault: bool := *;
      if fault {
        log.faults := log.faults + 1;
        return Io, bytes;
      }
      return Ok, data[sector];
    }

    /** A failed write may or may not have reached the medium. */
    method Write(sector: nat, bytes: Sector) returns (status: Status)
      requires Valid()
      modifies this`data, this`maybe, this`exposed, log
      ensures Valid() && status in {Ok, OutOfRange, ReadOnly, Io}
      ensures log.faults == old(log.faults) + if status == Io then 1 else 0
      ensures status == Ok ==> sector < sectorCount && data == old(data)[sector := bytes]
      ensures sector < sectorCount ==> data == old(data) || data == old(data)[sector := bytes]
      ensures status == OutOfRange <==> sector >= sectorCount
      ensures status == ReadOnly <==> sector < sectorCount && readOnly
      ensures sector >= sectorCount || readOnly ==> status != Ok && data == old(data)
      ensures forall s :: 0 <= s < sectorCount ==>
              maybe[s] <= old(maybe[s]) + (if s == sector then {bytes} else {})
      ensures forall d :: d in exposed ==> d in old(exposed) || Possible(d)
      ensures forall d :: d in old(exposed) ==> d in exposed
    {
      if sector >= sectorCount {
        return OutOfRange;
      }
      if readOnly {
        return ReadOnly;
      }
      var fault: bool, landed: bool := *, *;
      maybe := maybe[sector := maybe[sector] + {bytes}];
      exposed := exposed + (iset d | Possible(d));
      if !fault || landed {
        data := data[sector := bytes];
      }
      status := if fault then Io else Ok;
      log.faults := log.faults + if fault then 1 else 0;
    }

    method Flush() returns (status: Status)
      requires Valid()
      modifies this`maybe, log
      ensures Valid() && status in {Ok, Io}
      ensures log.faults == old(log.faults) + if status == Io then 1 else 0
      ensures status == Ok ==> Quiet()
      ensures status != Ok ==> maybe == old(maybe)
    {
      var fault: bool := *;
      if fault {
        log.faults := log.faults + 1;
        return Io;
      }
      ghost var now := data;
      maybe := seq(|now|, s requires 0 <= s < |now| => {now[s]});
      forall d | Possible(d) ensures d in exposed {
        assert forall s :: 0 <= s < |d| ==> d[s] in old(maybe)[s];
        assert old(Possible(d));
      }
      status := Ok;
    }
  }
}
