/**
  The linked list of PCI capabilities in the 256 bytes of a function's configuration space, as the
  virtio transport walks it, and the four register regions that it gathers on the way.
*/
module CapabilityList {
  import opened Bytes
  import opened Status
  import opened BlockDevice

  const PLACES := 64
  const BARS := 6
  const VENDOR_CAPABILITY := 9
  const PHYSICAL_LIMIT := 0x10_0000_0000_0000

  type Config = c: seq<u32> | |c| == PLACES witness seq(PLACES, _ => 0)

  predicate IsPlace(pointer: int) {
    0x40 <= pointer <= 0xf0 && pointer % 4 == 0
  }

  /** A list that starts at `start` and comes to the null pointer. */
  ghost predicate IsList(next: seq<Byte>, start: int, list: seq<int>)
    requires |next| == PLACES
    decreases |list|
  {
    if list == [] then start == 0
    else list[0] == start && IsPlace(start) && IsList(next, next[start / 4], list[1..])
  }

  /** The places from `start` on, up to but without `end`. */
  ghost predicate IsTrail(next: seq<Byte>, start: int, trail: seq<int>, end: int)
    requires |next| == PLACES
    decreases |trail|
  {
    if trail == [] then start == end
    else trail[0] == start && IsPlace(start) && IsTrail(next, next[start / 4], trail[1..], end)
  }

  lemma {:induction false} OneLength(next: seq<Byte>, start: int, a: seq<int>, b: seq<int>)
    requires |next| == PLACES && IsList(next, start, a) && IsList(next, start, b)
    ensures |a| == |b|
    decreases |a|
  {
    if a != [] && b != [] {
      OneLength(next, next[start / 4], a[1..], b[1..]);
    }
  }

  /** Every list follows the trail. */
  lemma {:induction false} Follows(next: seq<Byte>, start: int, trail: seq<int>, end: int, list: seq<int>)
    requires |next| == PLACES && IsTrail(next, start, trail, end) && IsList(next, start, list)
    ensures |trail| <= |list| && list[..|trail|] == trail && IsList(next, end, list[|trail|..])
    decreases |trail|
  {
    if trail == [] {
      assert list[0..] == list;
    } else {
      assert list != [];
      Follows(next, next[start / 4], trail[1..], end, list[1..]);
      assert list == [start] + list[1..] && trail == [start] + trail[1..];
      assert list[|trail|..] == list[1..][|trail| - 1..];
    }
  }

  lemma {:induction false} TrailGrows(next: seq<Byte>, start: int, trail: seq<int>, end: int)
    requires |next| == PLACES && IsTrail(next, start, trail, end) && IsPlace(end)
    ensures IsTrail(next, start, trail + [end], next[end / 4])
    decreases |trail|
  {
    if trail == [] {
      assert [end][1..] == [];
    } else {
      TrailGrows(next, next[start / 4], trail[1..], end);
      assert (trail + [end])[1..] == trail[1..] + [end];
    }
  }

  lemma {:induction false} TrailSplits(next: seq<Byte>, start: int, trail: seq<int>, end: int, k: nat)
    requires |next| == PLACES && IsTrail(next, start, trail, end) && k < |trail|
    ensures IsTrail(next, start, trail[..k], trail[k])
    decreases |trail|
  {
    if k > 0 {
      TrailSplits(next, next[start / 4], trail[1..], end, k - 1);
      assert trail[..k][1..] == trail[1..][..k - 1];
    }
  }

  lemma {:induction false} TrailEnds(next: seq<Byte>, start: int, trail: seq<int>)
    requires |next| == PLACES && IsTrail(next, start, trail, 0)
    ensures IsList(next, start, trail)
    decreases |trail|
  {
    if trail != [] {
      TrailEnds(next, next[start / 4], trail[1..]);
    }
  }

  /** A trail that comes back to one of its own places never ends. */
  lemma {:induction false} CycleHasNoList(next: seq<Byte>, start: int, trail: seq<int>, k: nat, list: seq<int>)
    requires |next| == PLACES && k < |trail| && IsTrail(next, start, trail, trail[k])
    ensures !IsList(next, start, list)
  {
    if IsList(next, start, list) {
      Follows(next, start, trail, trail[k], list);
      TrailSplits(next, start, trail, trail[k], k);
      Follows(next, start, trail[..k], trail[k], list);
      OneLength(next, trail[k], list[k..], list[|trail|..]);
    }
  }

  // ----- what the capabilities say ------------------------------------------------------------------

  datatype Bar = Bar(memory: bool, address: u64, byteCount: u64)

  datatype Region = Region(address: nat, byteCount: nat)

  /** The registers found so far: common configuration, notification, interrupt status, device configuration. */
  datatype Regions = Regions(common: Option<Region>, notify: Option<Region>, isr: Option<Region>,
                             device: Option<Region>, multiplier: nat)

  const NO_REGIONS := Regions(None, None, None, None, 0)

  function Part(word: u32, k: nat): Byte
    requires k < 4
  {
    (word / (if k == 0 then 1 else if k == 1 then 0x100 else if k == 2 then 0x1_0000 else 0x100_0000)) % 0x100
  }

  function Links(config: Config): (next: seq<Byte>)
    ensures |next| == PLACES
  {
    seq(PLACES, i requires 0 <= i < PLACES => Part(config[i], 1))
  }

  /** Where a capability's region lies, if it lies in memory of that register and is well placed. */
  function Located(bars: seq<Bar>, kind: Byte, bar: Byte, offset: u32, length: u32): Result<Region> {
    if bar >= BARS || bar >= |bars| || length == 0 then Failure(Protocol)
    else
      var b := bars[bar];
      var address: int := b.address as int + offset as int;
      if !b.memory || b.address == 0 || b.byteCount == 0 || offset as int + length as int > b.byteCount
         || address > 0xffff_ffff_ffff_ffff then Failure(Protocol)
      else if address as int + length as int > PHYSICAL_LIMIT then Failure(BadAddress)
      else if (kind == 1 && offset % 4 != 0) || (kind == 2 && offset % 2 != 0) || (kind == 4 && offset % 4 != 0)
           then Failure(Protocol)
      else Success(Region(address, length))
  }

  function Taken(r: Regions, kind: Byte): Option<Region> {
    if kind == 1 then r.common else if kind == 2 then r.notify else if kind == 3 then r.isr else r.device
  }

  function With(r: Regions, kind: Byte, region: Region): Regions {
    if kind == 1 then r.(common := Some(region))
    else if kind == 2 then r.(notify := Some(region))
    else if kind == 3 then r.(isr := Some(region))
    else r.(device := Some(region))
  }

  /** One capability adds its region; each kind may come once, others than virtio's are passed over. */
  function Capability(config: Config, bars: seq<Bar>, pointer: int, r: Regions): (s: Result<Regions>)
    requires IsPlace(pointer)
    ensures s.Failure? ==> s.error in {Protocol, BadAddress, InvalidArgument}
  {
    var header, place := config[pointer / 4], pointer / 4;
    var kind := Part(header, 3);
    if Part(header, 0) != VENDOR_CAPABILITY then Success(r)
    else if Part(header, 2) < 16 then Failure(Protocol)
    else if !(1 <= kind <= 4) then Success(r)
    else
      match Located(bars, kind, Part(config[place + 1], 0), config[place + 2], config[place + 3])
      case Failure(error) => Failure(error)
      case Success(region) =>
        if Taken(r, kind).Some? then Failure(Protocol)
        else if kind != 2 then Success(With(r, kind, region))
        else if Part(header, 2) < 20 then Failure(Protocol)
        else if place + 4 >= PLACES then Failure(InvalidArgument)
        else if config[place + 4] == 0 then Failure(Protocol)
        else Success(With(r, kind, region).(multiplier := config[place + 4]))
  }

  /** The regions that the capabilities of a list add up to. */
  function Gathered(config: Config, bars: seq<Bar>, list: seq<int>, r: Regions): Result<Regions>
    requires forall i :: 0 <= i < |list| ==> IsPlace(list[i])
    decreases |list|
  {
    if list == [] then Success(r)
    else
      match Capability(config, bars, list[0], r)
      case Failure(error) => Failure(error)
      case Success(next) => Gathered(config, bars, list[1..], next)
  }

  function Holds(region: Option<Region>, minimum: nat): bool {
    region.Some? && region.value.byteCount >= minimum
  }

  /** Everything that the driver needs is there and large enough. */
  predicate Complete(r: Regions) {
    Holds(r.common, 56) && Holds(r.notify, 2) && r.multiplier != 0 && Holds(r.isr, 1) && Holds(r.device, 8)
  }

  /** The walk's whole answer: a proper list of good capabilities that give all regions. */
  ghost predicate Gives(config: Config, bars: seq<Bar>, start: int, list: seq<int>, r: Regions) {
    && IsList(Links(config), start, list) && (forall i :: 0 <= i < |list| ==> IsPlace(list[i]))
    && Gathered(config, bars, list, NO_REGIONS) == Success(r) && Complete(r)
  }

  lemma {:induction false} GatherOn(config: Config, bars: seq<Bar>, first: seq<int>, second: seq<int>, r: Regions)
    requires forall i :: 0 <= i < |first| ==> IsPlace(first[i])
    requires forall i :: 0 <= i < |second| ==> IsPlace(second[i])
    ensures Gathered(config, bars, first + second, r) ==
              match Gathered(config, bars, first, r)
              case Failure(error) => Failure(error)
              case Success(next) => Gathered(config, bars, second, next)
    decreases |first|
  {
    if first == [] {
      assert first + second == second;
    } else {
      assert (first + second)[1..] == first[1..] + second;
      if Capability(config, bars, first[0], r).Success? {
        GatherOn(config, bars, first[1..], second, Capability(config, bars, first[0], r).value);
      }
    }
  }

  // ----- the walk -----------------------------------------------------------------------------------

  /** The places passed so far, and what they have given. */
  ghost predicate Passed(config: Config, bars: seq<Bar>, start: int, trail: seq<int>, pointer: int, r: Regions) {
    && IsTrail(Links(config), start, trail, pointer) && (forall i :: 0 <= i < |trail| ==> IsPlace(trail[i]))
    && Gathered(config, bars, trail, NO_REGIONS) == Success(r)
  }

  lemma PassedOne(config: Config, bars: seq<Bar>, start: int, trail: seq<int>, pointer: int, r: Regions, next: Regions)
    requires Passed(config, bars, start, trail, pointer, r) && IsPlace(pointer)
    requires Capability(config, bars, pointer, r) == Success(next)
    ensures Passed(config, bars, start, trail + [pointer], Links(config)[pointer / 4], next)
  {
    hide Capability, IsTrail, Links;
    TrailGrows(Links(config), start, trail, pointer);
    GatherOn(config, bars, trail, [pointer], NO_REGIONS);
    assert [pointer][1..] == [];
  }

  /** A list goes through every place that the walk has reached, so a refused place leaves no good list. */
  lemma Refused(config: Config, bars: seq<Bar>, start: int, trail: seq<int>, pointer: int, r: Regions, list: seq<int>,
                end: Regions)
    requires Passed(config, bars, start, trail, pointer, r) && pointer != 0
    requires IsPlace(pointer) ==> Capability(config, bars, pointer, r).Failure?
    ensures !Gives(config, bars, start, list, end)
  {
    hide Capability, IsTrail, Links;
    if Gives(config, bars, start, list, end) {
      Follows(Links(config), start, trail, pointer, list);
      assert list == trail + list[|trail|..];
      GatherOn(config, bars, trail, list[|trail|..], NO_REGIONS);
    }
  }

  /** At the null pointer the trail is the list, the only one there is. */
  lemma Finished(config: Config, bars: seq<Bar>, start: int, trail: seq<int>, r: Regions, list: seq<int>, end: Regions)
    requires Passed(config, bars, start, trail, 0, r)
    ensures Gives(config, bars, start, list, end) ==> list == trail && end == r && Complete(r)
    ensures Complete(r) ==> Gives(config, bars, start, trail, r)
  {
    hide Capability, Links;
    TrailEnds(Links(config), start, trail);
    if Gives(config, bars, start, list, end) {
      Follows(Links(config), start, trail, 0, list);
      OneLength(Links(config), start, list, trail);
      assert list == trail;
    }
  }

  ghost function Below(n: nat): (s: set<int>)
    ensures forall i :: i in s <==> 0 <= i < n
  {
    if n == 0 then {} else Below(n - 1) + {n - 1}
  }

  /** The visited places are those of the trail. */
  ghost predicate Marks(visited: set<int>, trail: seq<int>) {
    && (forall v :: v in visited ==> 4 * v in trail)
    && forall p :: p in trail ==> p / 4 in visited
  }

  lemma Seen(visited: set<int>, trail: seq<int>, pointer: int) returns (k: nat)
    requires Marks(visited, trail) && IsPlace(pointer) && pointer / 4 in visited
    ensures k < |trail| && trail[k] == pointer
  {
    assert 4 * (pointer / 4) in trail;
    k :| 0 <= k < |trail| && trail[k] == pointer;
  }

  lemma Marked(visited: set<int>, trail: seq<int>, pointer: int)
    requires Marks(visited, trail) && IsPlace(pointer)
    ensures Marks(visited + {pointer / 4}, trail + [pointer])
  {}

  lemma NoSteps(config: Config, bars: seq<Bar>, start: int)
    ensures Passed(config, bars, start, [], start, NO_REGIONS) && Marks({}, [])
  {}

  /**
    Ends on every configuration space.  Unless a read fails it succeeds exactly when there is a proper
    list whose capabilities give all the regions, each once, and then these are the regions.
  */
  method Walk(config: Config, bars: seq<Bar>, start: Byte, ghost log: FaultLog) returns (status: Status, r: Regions)
    modifies log
    ensures log.faults == old(log.faults) + if status == Io then 1 else 0
    ensures status == Ok ==> exists list :: Gives(config, bars, start, list, r)
    ensures status !in {Ok, Io} ==> forall list, end :: !Gives(config, bars, start, list, end)
  {
    hide IsList, IsTrail, Marks, Passed, Gives, Capability, Complete, Gathered;
    NoSteps(config, bars, start);
    var pointer: Byte := start;
    var visited: set<int> := {};
    ghost var trail: seq<int> := [];
    ghost var places := Below(PLACES);
    r := NO_REGIONS;
    while pointer != 0
      invariant Passed(config, bars, start, trail, pointer, r) && log.faults == old(log.faults)
      invariant visited <= places && Marks(visited, trail)
      decreases places - visited
    {
      if !IsPlace(pointer) {
        forall list, end ensures !Gives(config, bars, start, list, end) {
          Refused(config, bars, start, trail, pointer, r, list, end);
        }
        return Protocol, r;
      }
      var place: int := pointer / 4;
      if place in visited {
        ghost var k := Seen(visited, trail, pointer);
        forall list, end ensures !Gives(config, bars, start, list, end) {
          NoListGives(config, bars, start, trail, k, r, list, end);
        }
        return Protocol, r;
      }
      var fault: bool := *;
      if fault {
        log.faults := log.faults + 1;
        return Io, r;
      }
      var next := Capability(config, bars, pointer, r);
      if next.Failure? {
        forall list, end ensures !Gives(config, bars, start, list, end) {
          Refused(config, bars, start, trail, pointer, r, list, end);
        }
        return next.error, r;
      }
      PassedOne(config, bars, start, trail, pointer, r, next.value);
      Marked(visited, trail, pointer);
      r, trail, visited := next.value, trail + [pointer], visited + {place};
      pointer := Links(config)[place];
    }
    forall list, end ensures Gives(config, bars, start, list, end) ==> Complete(r) {
      Finished(config, bars, start, trail, r, list, end);
    }
    Finished(config, bars, start, trail, r, trail, r);
    status := if Complete(r) then Ok else Protocol;
  }

  lemma NoListGives(config: Config, bars: seq<Bar>, start: int, trail: seq<int>, k: nat, r: Regions, list: seq<int>,
                    end: Regions)
    requires k < |trail| && Passed(config, bars, start, trail, trail[k], r)
    ensures !Gives(config, bars, start, list, end)
  {
    CycleHasNoList(Links(config), start, trail, k, list);
  }
}
