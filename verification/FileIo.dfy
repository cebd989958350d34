/**
  Byte-level file access over cluster chains: an open file is a plain byte sequence with a position,
  and writing to it disturbs no other file.
*/
module FileIo {
  import opened Bytes
  import opened Status
  import opened Records
  import opened FatChain
  import opened Layout
  import opened BlockDevice
  import FatTable
  import FatValidate

  type Cluster = c: seq<Byte> | |c| == CLUSTER_BYTES witness seq(CLUSTER_BYTES, _ => 0)
  type i64 = x: int | -0x8000_0000_0000_0000 <= x < 0x8000_0000_0000_0000

  datatype Origin = FromStart | FromCurrent | FromEnd

  /** Table and cluster contents; the three cluster operations may fail, and a failed write may have landed. */
  class Store {
    const entryCount: nat
    const fat: array<u32>
    const writable: bool
    ghost const log: FaultLog
    var contents: seq<Cluster>

    ghost predicate Valid()
      reads this
    {
      ValidEntryCount(entryCount) && fat.Length == entryCount == |contents|
    }

    constructor (fat: array<u32>, contents: seq<Cluster>, writable: bool)
      requires ValidEntryCount(fat.Length) && |contents| == fat.Length
      ensures Valid() && this.fat == fat && this.contents == contents && this.writable == writable && fresh(log)
    {
      entryCount, this.fat, this.contents, this.writable := fat.Length, fat, contents, writable;
      log := new FaultLog();
    }

    method Read(c: nat) returns (status: Status, bytes: Cluster)
      requires Valid() && c < entryCount
      modifies log
      ensures status in {Ok, Io} && (status == Ok ==> bytes == contents[c])
      ensures log.faults == old(log.faults) + if status == Io then 1 else 0
    {
      var fault: bool := *;
      log.faults := log.faults + if fault then 1 else 0;
      return if fault then Io else Ok, contents[c];
    }

    method Write(c: nat, bytes: Cluster) returns (status: Status)
      requires Valid() && c < entryCount
      modifies this`contents, log
      ensures Valid() && status in {Ok, Io}
      ensures log.faults == old(log.faults) + if status == Io then 1 else 0
      ensures status == Ok ==> contents == old(contents)[c := bytes]
      ensures contents == old(contents) || contents == old(contents)[c := bytes]
    {
      var fault: bool, landed: bool := *, *;
      if !fault || landed {
        contents := contents[c := bytes];
      }
      status := if fault then Io else Ok;
      log.faults := log.faults + if fault then 1 else 0;
    }

    method Zero(c: nat) returns (status: Status)
      requires Valid() && c < entryCount
      modifies this`contents, log
      ensures Valid() && status in {Ok, Io}
      ensures log.faults == old(log.faults) + if status == Io then 1 else 0
      ensures contents == old(contents) || contents == old(contents)[c := Zeros(CLUSTER_BYTES)]
      ensures status == Ok ==> contents == old(contents)[c := Zeros(CLUSTER_BYTES)]
    {
      status := Write(c, Zeros(CLUSTER_BYTES));
    }
  }

  // ----- the byte sequence that a chain holds ---------------------------------------------------

  ghost predicate Within(chain: seq<u32>, n: nat) {
    forall i :: 0 <= i < |chain| ==> ValidCluster(chain[i], n)
  }

  ghost function ByteAt(contents: seq<Cluster>, chain: seq<u32>, j: nat): Byte
    requires Within(chain, |contents|) && j < |chain| * CLUSTER_BYTES
  {
    contents[chain[j / CLUSTER_BYTES]][j % CLUSTER_BYTES]
  }

  ghost function FileBytes(contents: seq<Cluster>, chain: seq<u32>, size: nat): (bytes: seq<Byte>)
    requires Within(chain, |contents|) && size <= |chain| * CLUSTER_BYTES
    ensures |bytes| == size && forall j :: 0 <= j < size ==> bytes[j] == ByteAt(contents, chain, j)
  {
    seq(size, j requires 0 <= j < size => ByteAt(contents, chain, j))
  }

  /** `bytes` with `input` written over it from `at` on. */
  function Spliced(bytes: seq<Byte>, at: nat, input: seq<Byte>): (r: seq<Byte>)
    requires at <= |bytes|
    ensures |r| == if at + |input| > |bytes| then at + |input| else |bytes|
  {
    bytes[..at] + input + if at + |input| <= |bytes| then bytes[at + |input|..] else []
  }

  /** What was written reads back, and the rest of the file is where it was. */
  lemma SplicedReadsBack(bytes: seq<Byte>, at: nat, input: seq<Byte>)
    requires at <= |bytes|
    ensures Spliced(bytes, at, input)[at..at + |input|] == input
    ensures Spliced(bytes, at, input)[..at] == bytes[..at]
    ensures at + |input| <= |bytes| ==> Spliced(bytes, at, input)[at + |input|..] == bytes[at + |input|..]
  {}

  /** The chain that belongs to a file of this size, and its length suffices. */
  ghost predicate Backed(fat: seq<u32>, n: nat, p: Primary, chain: seq<u32>)
    requires n <= |fat|
  {
    && |chain| * CLUSTER_BYTES >= p.fileSize
    && if p.fileSize == 0 then chain == [] && p.firstCluster == 0 else IsChain(fat, n, p.firstCluster, chain)
  }

  /** The file has a sound chain that carries its size in at most `capacity` clusters. */
  ghost predicate Fitting(fat: seq<u32>, n: nat, p: Primary, capacity: nat)
    requires n <= |fat|
  {
    exists chain :: Backed(fat, n, p, chain) && |chain| <= capacity
  }

  lemma PairMeaning(companion: Record, record: Record)
    ensures Pair(companion, record).Some? <==> ValidatePair(companion, record) == Ok
    ensures ValidatePair(companion, record) == Ok ==>
            && DecodePrimary(record).Success? && Pair(companion, record) == Some(DecodePrimary(record).value)
            && Encodable(DecodePrimary(record).value) && DecodePrimary(record).value.attributes == ATTRIBUTE_REGULAR
  {}

  lemma EmptyHasNoCluster(p: Primary)
    requires Encodable(p) && p.attributes == ATTRIBUTE_REGULAR
    ensures p.fileSize == 0 ==> p.firstCluster == 0
  {}

  /** Appending freshly linked clusters to a chain gives the longer chain. */
  lemma ChainJoins(before: seq<u32>, middle: seq<u32>, after: seq<u32>, n: nat, start: u32, chain: seq<u32>,
                   cs: seq<u32>)
    requires n <= |before| && ValidEntryCount(n) && IsChain(before, n, start, chain)
    requires |cs| > 0 && Distinct(cs) && forall i :: 0 <= i < |cs| ==> 2 <= cs[i] < n && before[cs[i]] == FREE
    requires Linked(before, middle, cs)
    requires after == middle[chain[|chain| - 1] := cs[0]]
    ensures IsChain(after, n, start, chain + cs)
  {
    AllocationPreservesChains(before, middle, n, cs, start, chain);
    LinkedIsChain(before, middle, n, cs);
    var all, last := chain + cs, |chain| - 1;
    forall i | 0 <= i < |cs| ensures cs[i] !in chain {
      assert cs[i] in cs;
    }
    forall i, j | 0 <= i && j == i + 1 && j < |all| ensures Steps(after, n, all[i], all[j]) {
      if i < last {
        assert Steps(middle, n, chain[i], chain[j]) && chain[i] != chain[last];
      } else if i == last {
        LinkClassifies(cs[0], n);
      } else {
        assert Steps(middle, n, cs[i - |chain|], cs[j - |chain|]);
      }
    }
    assert all[|all| - 1] == cs[|cs| - 1];
  }

  /** Whatever happens to one file, a chain that shares no cluster with it keeps its shape and bytes. */
  lemma OthersKept(before: seq<u32>, after: seq<u32>, was: seq<Cluster>, now: seq<Cluster>, n: nat,
                   mine: seq<u32>, start: u32, other: seq<u32>, size: nat)
    requires n == |before| == |after| == |was| == |now| && IsChain(before, n, start, other)
    requires forall i :: 0 <= i < |other| ==> other[i] !in mine
    requires Untouched(before, after, was, now, mine) && size <= |other| * CLUSTER_BYTES
    ensures IsChain(after, n, start, other)
    ensures FileBytes(now, other, size) == FileBytes(was, other, size)
  {
    forall i | 0 <= i < |other| ensures after[other[i]] == before[other[i]] && now[other[i]] == was[other[i]] {
      ChainEntriesNotFree(before, n, start, other, i);
    }
    ChainFrame(before, after, n, start, other);
  }

  /** Clusters in use outside `mine` keep their entry and their contents. */
  ghost predicate Untouched(before: seq<u32>, after: seq<u32>, was: seq<Cluster>, now: seq<Cluster>, mine: seq<u32>) {
    && |before| == |after| == |was| == |now|
    && forall c :: 0 <= c < |before| && before[c] != FREE && c !in mine ==> after[c] == before[c] && now[c] == was[c]
  }

  /** Clusters that so many bytes take up. */
  function Needed(bytes: nat): nat {
    (bytes + CLUSTER_BYTES - 1) / CLUSTER_BYTES
  }

  lemma SplicedAtEnd(bytes: seq<Byte>, input: seq<Byte>)
    ensures Spliced(bytes, |bytes|, input) == bytes + input
  {}

  lemma NothingSpliced(bytes: seq<Byte>, at: nat)
    requires at <= |bytes|
    ensures Spliced(bytes, at, []) == bytes
  {}

  lemma NeededFits(bytes: nat, at: nat)
    ensures at + bytes <= Needed(at + bytes) * CLUSTER_BYTES && (bytes > 0 ==> Needed(at + bytes) > 0)
  {}

  class File {
    const store: Store
    const workspace: array<u32>
    var primary: Primary
    var position: u32
    var writable: bool
    var open: bool
    // the clusters of the file, in order
    ghost var clusters: seq<u32>

    ghost predicate Wired()
      reads this, store
    {
      && store.Valid() && workspace != store.fat && workspace.Length > 0
    }

    /** Open, and linked to a chain that is long enough. */
    ghost predicate Ready()
      reads this, store, store.fat
    {
      && Wired() && open && |clusters| <= workspace.Length && |clusters| * CLUSTER_BYTES >= primary.fileSize
      && Within(clusters, store.entryCount)
      && if clusters == [] then primary.firstCluster == 0
         else IsChain(store.fat[..], store.entryCount, primary.firstCluster, clusters)
    }

    /** Empty by its size but linked to clusters: what a write that failed while growing from nothing leaves. */
    ghost predicate Stranded()
      reads this
    {
      primary.fileSize == 0 && clusters != []
    }

    /** The one situation in which a fault can strand the file: it is empty, and the write gets as far as growing it. */
    ghost predicate MayStrand(input: seq<Byte>)
      reads this, store, store.fat
      requires store.Valid()
    {
      && primary.fileSize == 0 && clusters == [] && position == 0 && writable && store.writable
      && 0 < |input| <= 0xffff_ffff && HasRoom(Needed(|input|))
    }

    /** The chain has so many clusters, or there are enough free ones, and workspace to list them all. */
    ghost predicate HasRoom(required: nat)
      reads this, store, store.fat
      requires store.Valid()
    {
      || required <= |clusters|
      || (required <= workspace.Length && required - |clusters| <= |FreeClusters(store.fat[..], store.entryCount)|)
    }

    ghost function Content(): (bytes: seq<Byte>)
      reads this, store, store.fat
      requires Ready()
      ensures |bytes| == primary.fileSize
    {
      FileBytes(store.contents, clusters, primary.fileSize)
    }

    constructor (store: Store, capacity: nat)
      requires store.Valid() && capacity > 0
      ensures this.store == store && Wired() && !open && fresh(workspace) && workspace.Length == capacity
    {
      this.store := store;
      workspace := new u32[capacity](_ => 0);
      primary := Primary(Zeros(11), 0, 0, 0);
      position, writable, open, clusters := 0, false, false, [];
    }

    /** Opens the file of a valid record pair, if its chain carries its size. */
    method Open(companion: Record, record: Record, forWriting: bool) returns (status: Status)
      requires Wired()
      modifies this`primary, this`position, this`writable, this`open, this`clusters, workspace
      ensures Wired()
      ensures status == Ok ==>
              && Ready() && !Stranded() && Pair(companion, record) == Some(primary) && position == 0
              && writable == forWriting && (forWriting ==> store.writable)
      ensures forWriting && !store.writable ==> status == ReadOnly
      ensures status == Ok <==>
              && (forWriting ==> store.writable) && Pair(companion, record).Some?
              && Fitting(store.fat[..], store.entryCount, Pair(companion, record).value, workspace.Length)
      ensures status != Ok ==> open == old(open) && primary == old(primary) && position == old(position)
    {
      hide Encodable, IsChain, Pair, ValidatePair, DecodePrimary;
      if forWriting && !store.writable {
        return ReadOnly;
      }
      PairMeaning(companion, record);
      status := ValidatePair(companion, record);
      if status.Failed() {
        return;
      }
      ghost var chain;
      status, chain := CheckChain(DecodePrimary(record).value);
      if status.Failed() {
        return;
      }
      primary, position, writable, open, clusters := DecodePrimary(record).value, 0, forWriting, true, chain;
    }

    /** Whether the file's chain is sound, carries its size and fits the workspace. */
    method CheckChain(p: Primary) returns (status: Status, ghost chain: seq<u32>)
      requires Wired() && Encodable(p) && p.attributes == ATTRIBUTE_REGULAR
      modifies workspace
      ensures status == Ok <==> Fitting(store.fat[..], store.entryCount, p, workspace.Length)
      ensures status == Ok ==> Backed(store.fat[..], store.entryCount, p, chain) && |chain| <= workspace.Length
      ensures status == Ok ==> Within(chain, store.entryCount)
    {
      hide Encodable;
      EmptyHasNoCluster(p);
      chain := [];
      if p.fileSize == 0 {
        return Ok, chain;
      }
      ghost var table, n := store.fat[..], store.entryCount;
      status := FatValidate.ValidateFileCapacity(store.fat, store.entryCount, p.firstCluster, p.fileSize,
                                                 CLUSTER_BYTES);
      if status.Failed() {
        return;
      }
      ghost var sized :| IsChain(table, n, p.firstCluster, sized)
        && FatValidate.Capacity(sized, CLUSTER_BYTES) >= p.fileSize;
      var count;
      status, count := FatTable.Traverse(store.fat, store.entryCount, p.firstCluster, workspace);
      if status.Failed() {
        return;
      }
      chain := workspace[..count];
      ChainUnique(table, n, p.firstCluster, chain, sized);
    }

    method LoadChain() returns (status: Status, count: nat)
      requires Ready()
      modifies workspace
      ensures Ready() && count <= workspace.Length
      ensures status == if Stranded() then Corrupt else Ok
      ensures status == Ok ==> count == |clusters| && workspace[..count] == clusters
    {
      if primary.fileSize == 0 {
        return if primary.firstCluster == 0 then Ok else Corrupt, 0;
      }
      assert FatTable.FitsIn(store.fat[..], store.entryCount, primary.firstCluster, workspace.Length);
      status, count := FatTable.Traverse(store.fat, store.entryCount, primary.firstCluster, workspace);
      ChainUnique(store.fat[..], store.entryCount, primary.firstCluster, workspace[..count], clusters);
    }

    /** Zeroes freshly allocated clusters; if one cannot be zeroed, all are free again. */
    method ZeroFresh(at: nat, count: nat, ghost before: seq<u32>) returns (status: Status)
      requires Wired() && at + count <= workspace.Length && |before| == store.entryCount
      requires forall i :: at <= i < at + count ==> 2 <= workspace[i] < store.entryCount && before[workspace[i]] == FREE
      requires Linked(before, store.fat[..], workspace[at..at + count])
      modifies store.fat, store`contents, store.log
      ensures Wired() && status in {Ok, Io}
      ensures store.log.faults == old(store.log.faults) + if status == Io then 1 else 0
      ensures status == Ok ==> store.fat[..] == old(store.fat[..])
      ensures status != Ok ==> store.fat[..] == before
      ensures forall c :: 0 <= c < store.entryCount && before[c] != FREE ==> store.contents[c] == old(store.contents[c])
    {
      ghost var cs, middle := workspace[at..at + count], store.fat[..];
      assert forall i :: 0 <= i < count ==> cs[i] == workspace[at + i];
      for index := 0 to count
        invariant store.log.faults == old(store.log.faults)
        invariant Wired() && store.fat[..] == middle
        invariant forall c :: 0 <= c < store.entryCount && before[c] != FREE ==>
                  store.contents[c] == old(store.contents[c])
      {
        status := store.Zero(workspace[at + index]);
        if status.Failed() {
          ghost var zeroed := store.contents;
          for undone := 0 to count
            invariant Wired() && store.contents == zeroed && store.log.faults == old(store.log.faults) + 1
            invariant forall c :: 0 <= c < store.entryCount ==>
                      store.fat[c] == if c in cs[..undone] then FREE else middle[c]
          {
            assert workspace[at + undone] == cs[undone] && cs[..undone + 1] == cs[..undone] + [cs[undone]];
            store.fat[workspace[at + undone]] := FREE;
          }
          assert cs[..count] == cs;
          ReleaseUndoesAllocation(before, middle, store.fat[..], store.entryCount, cs);
          return;
        }
      }
      status := Ok;
    }

    /** Makes the chain at least `required` clusters long, or leaves table and file exactly as they were. */
    method EnsureClusters(required: nat) returns (status: Status, count: nat)
      requires Ready()
      modifies this`primary, this`clusters, workspace, store.fat, store`contents, store.log
      ensures Ready() && status in {Ok, Corrupt, NoSpace, Io}
      ensures store.log.faults == old(store.log.faults) + if status == Io then 1 else 0
      ensures old(Stranded()) <==> status == Corrupt
      ensures status == NoSpace <==> !old(Stranded()) && !old(HasRoom(required))
      ensures old(clusters) <= clusters && primary == old(primary).(firstCluster := primary.firstCluster)
      ensures status == Ok ==> count == |clusters| >= required && workspace[..count] == clusters
      ensures forall i :: 0 <= i < |clusters| ==>
              clusters[i] in old(clusters) || old(store.fat[..])[clusters[i]] == FREE
      ensures status != Ok ==>
              store.fat[..] == old(store.fat[..]) && primary == old(primary) && clusters == old(clusters)
      ensures Untouched(old(store.fat[..]), store.fat[..], old(store.contents), store.contents, old(clusters))
      ensures forall i :: 0 <= i < |old(clusters)| ==>
              store.contents[old(clusters)[i]] == old(store.contents)[old(clusters)[i]]
    {
      hide IsChain, Linked, Untouched;
      ghost var before := store.fat[..];
      NothingTouched(before, store.contents, clusters);
      var existing;
      status, existing := LoadChain();
      if status.Failed() {
        return status, 0;
      }
      if required <= existing {
        return Ok, existing;
      }
      if required > workspace.Length {
        return NoSpace, 0;
      }
      status, count := FatTable.Allocate(store.fat, store.entryCount, required - existing, workspace, existing);
      if status.Failed() {
        return;
      }
      FreshFacts(before, store.entryCount, workspace[existing..required]);
      assert forall i :: existing <= i < required ==> workspace[i] == workspace[existing..required][i - existing];
      ghost var was := store.contents;
      status := ZeroFresh(existing, required - existing, before);
      ContentsTouched(before, was, store.contents, clusters);
      ChainNotFree(before, store.entryCount, primary.firstCluster, clusters);
      if status.Failed() {
        return;
      }
      count := required;
      LinkFresh(existing, required, before, was);
    }

    /** Hangs the fresh clusters onto the end of the file's chain. */
    method LinkFresh(existing: nat, required: nat, ghost before: seq<u32>, ghost was: seq<Cluster>)
      requires Wired() && open && existing == |clusters| < required <= workspace.Length
               && workspace[..existing] == clusters
      requires |before| == store.entryCount && Within(clusters, store.entryCount)
               && |clusters| * CLUSTER_BYTES >= primary.fileSize
      requires if clusters == [] then primary.firstCluster == 0
               else IsChain(before, store.entryCount, primary.firstCluster, clusters)
      requires Fresh(before, store.entryCount, workspace[existing..required])
      requires Linked(before, store.fat[..], workspace[existing..required])
      requires Untouched(before, before, was, store.contents, clusters)
      modifies this`primary, this`clusters, store.fat
      ensures Ready() && old(clusters) <= clusters && primary == old(primary).(firstCluster := primary.firstCluster)
      ensures |clusters| == required && workspace[..required] == clusters
      ensures forall i :: 0 <= i < |clusters| ==> clusters[i] in old(clusters) || before[clusters[i]] == FREE
      ensures Untouched(before, store.fat[..], was, store.contents, old(clusters))
    {
      hide IsChain, Untouched, Linked, Distinct;
      ghost var cs, middle := workspace[existing..required], store.fat[..];
      assert cs[0] == workspace[existing];
      if existing == 0 {
        primary := primary.(firstCluster := workspace[0]);
        LinkedIsChain(before, middle, store.entryCount, cs);
        assert [] + cs == cs;
      } else {
        assert workspace[..existing][existing - 1] == workspace[existing - 1];
        store.fat[workspace[existing - 1]] := workspace[existing];
        ChainJoins(before, middle, store.fat[..], store.entryCount, primary.firstCluster, clusters, cs);
      }
      assert workspace[..required] == clusters + cs;
      LinkTouches(before, middle, store.fat[..], was, store.contents, clusters, cs);
      clusters := clusters + cs;
    }

    /** All bytes of the file's clusters, those behind its end included. */
    ghost function Raw(): (bytes: seq<Byte>)
      reads this, store, store.fat
      requires Ready()
      ensures |bytes| == |clusters| * CLUSTER_BYTES
    {
      FileBytes(store.contents, clusters, |clusters| * CLUSTER_BYTES)
    }

    /** How many bytes a read sets out for: the distance to the end is taken in 32 bits, without a sign. */
    function Wanted(length: nat): nat
      reads this`primary, this`position
    {
      var available: int := (primary.fileSize as int - position as int) % COUNT_32;
      if length > available then available else length
    }

    /**
      Reads from the position on.  Up to the end of the file this is a read of a byte sequence, and behind
      the end, where only a seek can lead, it never is: the distance wraps around, and what comes back is
      what the clusters hold from there on, round the 32-bit position, until they are exhausted.
    */
    method Read(length: nat) returns (status: Status, data: seq<Byte>)
      requires Ready()
      modifies this`position, workspace, store.log
      ensures store.log.faults == old(store.log.faults) + if status == Io then 1 else 0
      ensures Ready() && status in {Ok, Corrupt, Io} && Content() == old(Content()) && Raw() == old(Raw())
      ensures Circular(Raw(), old(position), data) && position == Place(old(position), |data|)
      ensures |data| <= old(Wanted(length)) && (status == Ok ==> |data| == old(Wanted(length)))
      ensures old(Wanted(length)) == 0 ==> status == Ok
      ensures status != Io ==>
              (status == Ok <==>
               old(Wanted(length)) == 0 || (!Stranded() && Reach(old(position), old(Wanted(length))) <= |Raw()|))
      ensures status == Corrupt && !Stranded() ==> position >= |Raw()|
      ensures status != Io ==>
              (AsSequence(Content(), old(position), length, status, data) <==>
                 length == 0 || old(position) <= primary.fileSize)
    {
      hide IsChain, FileBytes, Circular, Place, Reach, AsSequence;
      data := [];
      NoneRead(Raw(), Content(), position, length);
      ghost var start, wanted := position, Wanted(length);
      if length == 0 || position == primary.fileSize {
        return Ok, data;
      }
      var available: int := (primary.fileSize as int - position as int) % COUNT_32;
      PrefixOfRaw(store.contents, clusters, primary.fileSize);
      InsideIsRaw(primary, Content(), Raw(), start, length, wanted);
      var count;
      status, count := LoadChain();
      if status.Failed() {
        return;
      }
      status, data := ReadChunks(count, if length > available then available else length);
    }

    /** The loop of the read. */
    method ReadChunks(count: nat, wanted: nat) returns (status: Status, data: seq<Byte>)
      requires Ready() && count == |clusters| && workspace[..count] == clusters && wanted > 0
      modifies this`position, store.log
      ensures store.log.faults == old(store.log.faults) + if status == Io then 1 else 0
      ensures Ready() && status in {Ok, Corrupt, Io}
      ensures Circular(Raw(), old(position), data) && position == Place(old(position), |data|)
      ensures |data| <= wanted && (status == Ok ==> |data| == wanted)
      ensures status != Io ==> (status == Ok <==> Reach(old(position), wanted) <= |Raw()|)
      ensures status == Corrupt ==> position >= |Raw()|
    {
      hide IsChain, FileBytes, Circular, Place, Reach;
      ghost var start := position;
      var remaining: nat := wanted;
      data := [];
      NoneRead(Raw(), [], position, 0);
      while remaining != 0
        invariant Ready() && Circular(Raw(), start, data) && position == Place(start, |data|)
        invariant store.log.faults == old(store.log.faults)
        invariant |data| + remaining == wanted
        decreases remaining
      {
        var chunk;
        status, chunk := ReadChunk(count, remaining);
        if status.Failed() {
          ReadStops(Raw(), start, data, wanted);
          return;
        }
        ReadGrows(Raw(), start, data, chunk);
        data := data + chunk;
        remaining := remaining - |chunk|;
      }
      ReadCovers(Raw(), start, data);
      status := Ok;
    }

    /** The bytes from the position to the end of its cluster, but no more than asked for. */
    method ReadChunk(count: nat, remaining: nat) returns (status: Status, chunk: seq<Byte>)
      requires Ready() && count == |clusters| && workspace[..count] == clusters && remaining > 0
      modifies this`position, store.log
      ensures store.log.faults == old(store.log.faults) + if status == Io then 1 else 0
      ensures Ready() && status in {Ok, Corrupt, Io}
      ensures status != Io ==> (status == Corrupt <==> old(position) >= |Raw()|)
      ensures status == Ok ==>
              && 0 < |chunk| <= remaining && old(position) + |chunk| <= |Raw()| && old(position) + |chunk| <= COUNT_32
              && chunk == Raw()[old(position)..old(position) + |chunk|]
      ensures status == Io ==> old(position) < |Raw()|
      ensures position == if status == Ok then Place(old(position), |chunk|) else old(position)
    {
      hide IsChain, FileBytes;
      chunk := [];
      var index, offset := position / CLUSTER_BYTES, position % CLUSTER_BYTES;
      var length: nat := CLUSTER_BYTES - offset;
      if index >= count {
        return Corrupt, chunk;
      }
      if length > remaining {
        length := remaining;
      }
      assert workspace[..count][index] == workspace[index];
      var scratch;
      status, scratch := store.Read(workspace[index]);
      if status.Failed() {
        return;
      }
      ChunkOfFile(store.contents, clusters, |clusters| * CLUSTER_BYTES, position, length);
      chunk := scratch[offset..offset + length];
      position := (position + length) % COUNT_32;
    }

    /** A seek behind the end and a read: whatever comes of it, it is not what a byte sequence would give. */
    method ReadBehindEnd(distance: i64, length: nat) returns (status: Status, data: seq<Byte>)
      requires Ready() && 0 < distance && primary.fileSize + distance <= 0xffff_ffff && length > 0
      modifies this`position, workspace, store.log
      ensures store.log.faults == old(store.log.faults) + if status == Io then 1 else 0
      ensures Ready() && Content() == old(Content())
      ensures status != Io ==> !AsSequence(Content(), primary.fileSize + distance, length, status, data)
    {
      hide IsChain, FileBytes, AsSequence;
      status := Seek(FromEnd, distance);
      assert position == primary.fileSize + distance;
      status, data := Read(length);
    }

    /** Writes at the position: afterwards the file is the old bytes with the input spliced in. */
    method Write(input: seq<Byte>) returns (status: Status, transferred: nat)
      requires Ready()
      modifies this`primary, this`position, this`clusters, workspace, store.fat, store`contents, store.log
      ensures Ready()
      ensures status in {Ok, ReadOnly, InvalidArgument, Overflow, Corrupt, NoSpace, Io}
      ensures status == ReadOnly <==> !(writable && store.writable)
      ensures status == InvalidArgument <==> status != ReadOnly && old(position) > old(primary.fileSize)
      ensures status == Overflow <==>
              status !in {ReadOnly, InvalidArgument} && input != [] && old(position) + |input| > 0xffff_ffff
      ensures status == Corrupt <==>
              status !in {ReadOnly, InvalidArgument, Overflow} && input != [] && old(Stranded())
      ensures status == NoSpace <==>
              && status !in {ReadOnly, InvalidArgument, Overflow, Corrupt} && input != []
              && !old(HasRoom((position + |input| + CLUSTER_BYTES - 1) / CLUSTER_BYTES))
      ensures store.log.faults == old(store.log.faults) + if status == Io then 1 else 0
      ensures status == Ok ==>
              && old(position) <= old(primary.fileSize) && Content() == Spliced(old(Content()), old(position), input)
              && position == old(position) + |input| && transferred == |input|
              && primary == old(primary).(firstCluster := primary.firstCluster, fileSize := |Content()|)
      ensures status != Ok ==> primary.fileSize == old(primary.fileSize)
      ensures status != Ok ==>
              forall j :: 0 <= j < primary.fileSize && !(old(position) <= j < old(position) + |input|) ==>
              Content()[j] == old(Content())[j]
      ensures old(Stranded()) && input != [] ==> status.Failed() && status != Io
      ensures Stranded() && !old(Stranded()) ==> old(MayStrand(input))
      ensures old(MayStrand(input)) ==>
              status in {Ok, Io} && (Stranded() <==> status == Io && store.fat[..] != old(store.fat[..]))
      ensures Untouched(old(store.fat[..]), store.fat[..], old(store.contents), store.contents, old(clusters))
    {
      hide IsChain, Untouched, FileBytes, HasRoom, Spliced;
      NothingTouched(store.fat[..], store.contents, clusters);
      if !writable || !store.writable {
        return ReadOnly, 0;
      }
      if position > primary.fileSize {
        return InvalidArgument, 0;
      }
      if |input| == 0 {
        NothingSpliced(Content(), position);
        return Ok, 0;
      }
      if |input| > 0xffff_ffff - position {
        return Overflow, 0;
      }
      status, transferred := WriteInside(input);
    }

    /** A write whose mode, position and length are in order. */
    method WriteInside(input: seq<Byte>) returns (status: Status, transferred: nat)
      requires Ready() && position <= primary.fileSize && input != [] && position + |input| <= 0xffff_ffff
      modifies this`primary, this`position, this`clusters, workspace, store.fat, store`contents, store.log
      ensures Ready() && status in {Ok, Corrupt, NoSpace, Io}
      ensures status == Corrupt <==> old(Stranded())
      ensures status == NoSpace <==> !old(Stranded()) && !old(HasRoom(Needed(position + |input|)))
      ensures store.log.faults == old(store.log.faults) + if status == Io then 1 else 0
      ensures status == Ok ==>
              && Content() == Spliced(old(Content()), old(position), input)
              && position == old(position) + |input| && transferred == |input|
              && primary == old(primary).(firstCluster := primary.firstCluster, fileSize := |Content()|)
      ensures status != Ok ==> primary.fileSize == old(primary.fileSize)
      ensures status != Ok ==>
              forall j :: 0 <= j < primary.fileSize && !(old(position) <= j < old(position) + |input|) ==>
              Content()[j] == old(Content())[j]
      ensures Stranded() && !old(Stranded()) ==>
              old(primary.fileSize == 0 && clusters == [] && HasRoom(Needed(position + |input|)))
      ensures old(primary.fileSize == 0 && clusters == [] && HasRoom(Needed(position + |input|))) ==>
              (Stranded() <==> status == Io && store.fat[..] != old(store.fat[..]))
      ensures Untouched(old(store.fat[..]), store.fat[..], old(store.contents), store.contents, old(clusters))
    {
      hide IsChain, Untouched, FileBytes, HasRoom, Needed, Spliced;
      transferred := 0;
      NeededFits(|input|, position);
      ghost var table, was, mine := store.fat[..], store.contents, clusters;
      var count;
      status, count := EnsureClusters(Needed(position + |input|));
      GrowthKeepsBytes(was, store.contents, mine, clusters, primary.fileSize);
      if status.Failed() {
        return status, 0;
      }
      ChainNotFree(store.fat[..], store.entryCount, primary.firstCluster, clusters);
      assert mine == [] ==> clusters[0] !in mine && store.fat[..][clusters[0]] != table[clusters[0]];
      status, transferred := WriteGrown(input, count, table, was, mine);
    }

    /** The part of a write that moves bytes, when the chain is long enough for them. */
    method WriteGrown(input: seq<Byte>, count: nat, ghost table: seq<u32>, ghost was: seq<Cluster>,
                      ghost mine: seq<u32>)
      returns (status: Status, transferred: nat)
      requires Ready() && clusters != [] && count == |clusters| && workspace[..count] == clusters
      requires position <= primary.fileSize && input != []
      requires position + |input| <= count * CLUSTER_BYTES && position + |input| <= 0xffff_ffff
      requires |table| == store.entryCount && Untouched(table, store.fat[..], was, store.contents, mine)
      requires forall i :: 0 <= i < count ==> clusters[i] in mine || table[clusters[i]] == FREE
      modifies this`primary, this`position, store`contents, store.log
      ensures Ready() && status in {Ok, Io} && Untouched(table, store.fat[..], was, store.contents, mine)
      ensures store.log.faults == old(store.log.faults) + if status == Io then 1 else 0
      ensures status == Ok ==>
              && Content() == Spliced(old(Content()), old(position), input)
              && position == old(position) + |input| && transferred == |input|
              && primary == old(primary).(fileSize := |Content()|)
      ensures status != Ok ==> primary == old(primary)
      ensures status != Ok ==>
              forall j :: 0 <= j < primary.fileSize && !(old(position) <= j < old(position) + |input|) ==>
              Content()[j] == old(Content())[j]
    {
      hide IsChain, Untouched, Overwritten, OnlyWithin, Distinct, FileBytes;
      ghost var bytes, grown := Content(), store.contents;
      DistinctChain(store.fat[..], store.entryCount, primary.firstCluster, clusters);
      status, transferred := WriteChunks(input, count, table, was, mine);
      FailureKeepsRest(bytes, grown, store.contents, clusters, old(position), |input|);
      if status.Failed() {
        return;
      }
      if position > primary.fileSize {
        primary := primary.(fileSize := position);
      }
      SplicedResult(bytes, grown, store.contents, clusters, primary.fileSize, old(position), input);
    }

    /** Moves the position anywhere in 32 bits, also behind the end. */
    method Seek(origin: Origin, offset: i64) returns (status: Status)
      requires Ready()
      modifies this`position
      ensures Ready() && Content() == old(Content()) && status in {Ok, Overflow, OutOfRange}
      ensures var target := offset as int + match origin case FromStart => 0 case FromCurrent => old(position as int)
                                                         case FromEnd => primary.fileSize as int;
        && (status == Overflow <==> target >= 0x8000_0000_0000_0000)
        && (status == Ok <==> 0 <= target <= 0xffff_ffff)
        && position == if status == Ok then target else old(position)
    {
      var base := Base(origin, position);
      if (offset > 0 && base > 0x7fff_ffff_ffff_ffff - offset)
        || (offset < 0 && base < -0x8000_0000_0000_0000 - offset) {
        return Overflow;
      }
      var next: int := base + offset;
      if next < 0 || next > 0xffff_ffff {
        return OutOfRange;
      }
      position := next;
      status := Ok;
    }

    function Base(origin: Origin, at: u32): int
      reads this`primary
    {
      match origin
      case FromStart => 0
      case FromCurrent => at
      case FromEnd => primary.fileSize
    }

    /** Adds to the end of the file, wherever the position was. */
    method Append(input: seq<Byte>) returns (status: Status, transferred: nat)
      requires Ready()
      modifies this`primary, this`position, this`clusters, workspace, store.fat, store`contents, store.log
      ensures Ready()
      ensures store.log.faults == old(store.log.faults) + if status == Io then 1 else 0
      ensures status in {Ok, ReadOnly, Overflow, Corrupt, NoSpace, Io}
      ensures status == ReadOnly <==> !(writable && store.writable)
      ensures status == Overflow <==>
              status != ReadOnly && input != [] && old(primary.fileSize) + |input| > 0xffff_ffff
      ensures status == Corrupt <==> status !in {ReadOnly, Overflow} && input != [] && old(Stranded())
      ensures status == NoSpace <==>
              && status !in {ReadOnly, Overflow, Corrupt} && input != []
              && !old(HasRoom((primary.fileSize + |input| + CLUSTER_BYTES - 1) / CLUSTER_BYTES))
      ensures status == Ok ==> Content() == old(Content()) + input && transferred == |input|
      ensures status != Ok ==> Content() == old(Content())
      ensures Untouched(old(store.fat[..]), store.fat[..], old(store.contents), store.contents, old(clusters))
    {
      hide IsChain, Untouched, FileBytes, Spliced, MayStrand, FreeClusters;
      ghost var content := Content();
      transferred := 0;
      status := Seek(FromEnd, 0);
      if !status.Failed() {
        status, transferred := Write(input);
      }
      SplicedAtEnd(content, input);
    }

    method Close() returns (status: Status)
      modifies this`primary, this`position, this`writable, this`open, this`clusters
      ensures status == (if old(open) then Ok else InvalidState) && !open
      ensures !old(open) ==> primary == old(primary) && position == old(position)
    {
      if !open {
        return InvalidState;
      }
      primary, position, writable, open, clusters := Primary(Zeros(11), 0, 0, 0), 0, false, false, [];
      status := Ok;
    }

    /** The loop of the write: chunk by chunk, each a read, an overlay and a write of one cluster. */
    method WriteChunks(input: seq<Byte>, count: nat, ghost table: seq<u32>, ghost was: seq<Cluster>,
                       ghost mine: seq<u32>)
      returns (status: Status, transferred: nat)
      requires Ready() && count == |clusters| && workspace[..count] == clusters && Distinct(clusters)
      requires position + |input| <= count * CLUSTER_BYTES && position + |input| <= 0xffff_ffff
      requires |table| == store.entryCount && Untouched(table, store.fat[..], was, store.contents, mine)
      requires forall i :: 0 <= i < count ==> clusters[i] in mine || table[clusters[i]] == FREE
      modifies this`position, store`contents, store.log
      ensures Ready() && status in {Ok, Io} && Untouched(table, store.fat[..], was, store.contents, mine)
      ensures store.log.faults == old(store.log.faults) + if status == Io then 1 else 0
      ensures status == Ok ==>
              && position == old(position) + |input| && transferred == |input|
              && Overwritten(old(store.contents), store.contents, clusters, old(position), input, |input|)
      ensures OnlyWithin(old(store.contents), store.contents, clusters, old(position), |input|)
    {
      hide IsChain, Untouched, Overwritten, OnlyWithin, Distinct;
      ghost var start, first := position, store.contents;
      var remaining: nat := |input|;
      transferred := 0;
      NothingWritten(first, clusters, start, input);
      while remaining != 0
        invariant Ready() && remaining + transferred == |input| && position == start + transferred
        invariant store.log.faults == old(store.log.faults)
        invariant position + remaining <= count * CLUSTER_BYTES
        invariant Overwritten(first, store.contents, clusters, start, input, transferred)
        invariant OnlyWithin(first, store.contents, clusters, start, |input|)
        invariant Untouched(table, store.fat[..], was, store.contents, mine)
        decreases remaining
      {
        var index, offset := position / CLUSTER_BYTES, position % CLUSTER_BYTES;
        var chunk := CLUSTER_BYTES - offset;
        if index >= count {
          assert false;
          return Corrupt, transferred;
        }
        if chunk > remaining {
          chunk := remaining;
        }
        assert workspace[..count][index] == workspace[index];
        var scratch;
        status, scratch := store.Read(workspace[index]);
        if status.Failed() {
          return;
        }
        ghost var before := store.contents;
        scratch := scratch[..offset] + input[transferred..transferred + chunk] + scratch[offset + chunk..];
        ChunkWritten(first, before, clusters, start, input, transferred, chunk, scratch);
        OwnWriteTouches(table, store.fat[..], was, before, mine, clusters, index, scratch);
        status := store.Write(workspace[index], scratch);
        if status.Failed() {
          return;
        }
        position := position + chunk;
        transferred := transferred + chunk;
        remaining := remaining - chunk;
      }
      status := Ok;
    }
  }

  // ----- what the write loop does to the bytes ------------------------------------------------------

  /** Of the chain's bytes exactly those from `at` on, `done` many, were replaced by input. */
  ghost predicate Overwritten(first: seq<Cluster>, now: seq<Cluster>, chain: seq<u32>, at: nat, input: seq<Byte>,
                              done: nat) {
    && |now| == |first| && Within(chain, |first|) && done <= |input|
    && forall j :: 0 <= j < |chain| * CLUSTER_BYTES ==>
         ByteAt(now, chain, j) == if at <= j < at + done then input[j - at] else ByteAt(first, chain, j)
  }

  /** No byte of the chain outside the given stretch has changed. */
  ghost predicate OnlyWithin(first: seq<Cluster>, now: seq<Cluster>, chain: seq<u32>, at: nat, length: nat) {
    && |now| == |first| && Within(chain, |first|)
    && forall j :: 0 <= j < |chain| * CLUSTER_BYTES && !(at <= j < at + length) ==>
         ByteAt(now, chain, j) == ByteAt(first, chain, j)
  }

  lemma NothingWritten(first: seq<Cluster>, chain: seq<u32>, at: nat, input: seq<Byte>)
    requires Within(chain, |first|)
    ensures Overwritten(first, first, chain, at, input, 0) && OnlyWithin(first, first, chain, at, |input|)
  {}

  lemma ChunkWritten(first: seq<Cluster>, now: seq<Cluster>, chain: seq<u32>, at: nat, input: seq<Byte>, done: nat,
                     chunk: nat, buffer: Cluster)
    requires Overwritten(first, now, chain, at, input, done) && Distinct(chain) && done + chunk <= |input|
    requires at + done < |chain| * CLUSTER_BYTES
    requires var offset := (at + done) % CLUSTER_BYTES;
      && offset + chunk <= CLUSTER_BYTES
      && buffer == now[chain[(at + done) / CLUSTER_BYTES]][..offset] + input[done..done + chunk]
                   + now[chain[(at + done) / CLUSTER_BYTES]][offset + chunk..]
    ensures var after := now[chain[(at + done) / CLUSTER_BYTES] := buffer];
      Overwritten(first, after, chain, at, input, done + chunk) && OnlyWithin(first, after, chain, at, |input|)
  {
    var index, offset := (at + done) / CLUSTER_BYTES, (at + done) % CLUSTER_BYTES;
    var after := now[chain[index] := buffer];
    forall j | 0 <= j < |chain| * CLUSTER_BYTES
      ensures ByteAt(after, chain, j) == if at <= j < at + done + chunk then input[j - at] else ByteAt(first, chain, j)
    {
      var i, o := j / CLUSTER_BYTES, j % CLUSTER_BYTES;
      assert j == i * CLUSTER_BYTES + o && at + done == index * CLUSTER_BYTES + offset;
      if i != index {
        assert chain[i] != chain[index] && ByteAt(after, chain, j) == ByteAt(now, chain, j);
      } else if offset <= o < offset + chunk {
        assert buffer[o] == input[done + (o - offset)];
      } else {
        assert buffer[o] == now[chain[index]][o] == ByteAt(now, chain, j);
      }
    }
  }

  /** Writing to one's own clusters touches nobody else's. */
  lemma OwnWriteTouches(table: seq<u32>, fat: seq<u32>, was: seq<Cluster>, now: seq<Cluster>, mine: seq<u32>,
                        chain: seq<u32>, index: nat, buffer: Cluster)
    requires Untouched(table, fat, was, now, mine) && index < |chain| && chain[index] < |table|
    requires chain[index] in mine || table[chain[index]] == FREE
    ensures Untouched(table, fat, was, now[chain[index] := buffer], mine)
  {}

  /** Growth changes no byte of what the file already held. */
  lemma GrowthKeepsBytes(was: seq<Cluster>, now: seq<Cluster>, mine: seq<u32>, clusters: seq<u32>, size: nat)
    requires |was| == |now| && mine <= clusters && Within(clusters, |was|) && size <= |mine| * CLUSTER_BYTES
    requires forall i :: 0 <= i < |mine| ==> now[mine[i]] == was[mine[i]]
    ensures Within(mine, |was|) && FileBytes(now, clusters, size) == FileBytes(was, mine, size)
  {}

  lemma SplicedResult(bytes: seq<Byte>, first: seq<Cluster>, now: seq<Cluster>, chain: seq<u32>, size: nat, at: nat,
                      input: seq<Byte>)
    requires Overwritten(first, now, chain, at, input, |input|) && at <= |bytes| <= |chain| * CLUSTER_BYTES
    requires bytes == FileBytes(first, chain, |bytes|)
    requires size == (if at + |input| > |bytes| then at + |input| else |bytes|) && size <= |chain| * CLUSTER_BYTES
    ensures FileBytes(now, chain, size) == Spliced(bytes, at, input)
  {}

  lemma FailureKeepsRest(bytes: seq<Byte>, first: seq<Cluster>, now: seq<Cluster>, chain: seq<u32>, at: nat,
                         length: nat)
    requires OnlyWithin(first, now, chain, at, length) && |bytes| <= |chain| * CLUSTER_BYTES
    requires bytes == FileBytes(first, chain, |bytes|)
    ensures forall j :: 0 <= j < |bytes| && !(at <= j < at + length) ==> FileBytes(now, chain, |bytes|)[j] == bytes[j]
  {}

  lemma ChunkOfFile(contents: seq<Cluster>, chain: seq<u32>, size: nat, position: nat, chunk: nat)
    requires Within(chain, |contents|) && size <= |chain| * CLUSTER_BYTES && position + chunk <= size && chunk > 0
    requires position % CLUSTER_BYTES + chunk <= CLUSTER_BYTES
    ensures contents[chain[position / CLUSTER_BYTES]][position % CLUSTER_BYTES..position % CLUSTER_BYTES + chunk]
            == FileBytes(contents, chain, size)[position..position + chunk]
  {
    var index, offset := position / CLUSTER_BYTES, position % CLUSTER_BYTES;
    forall j | position <= j < position + chunk
      ensures contents[chain[index]][j - position + offset] == FileBytes(contents, chain, size)[j]
    {
      assert j / CLUSTER_BYTES == index && j % CLUSTER_BYTES == j - position + offset;
    }
  }

  /** Different free clusters, in order of allocation. */
  ghost predicate Fresh(fat: seq<u32>, n: nat, cs: seq<u32>)
    requires n <= |fat|
  {
    Distinct(cs) && forall i :: 0 <= i < |cs| ==> 2 <= cs[i] < n && fat[cs[i]] == FREE
  }

  lemma FreshFacts(fat: seq<u32>, n: nat, cs: seq<u32>)
    requires n <= |fat| && ValidEntryCount(n)
    requires |cs| <= |FreeClusters(fat, n)| && cs == FreeClusters(fat, n)[..|cs|]
    ensures Fresh(fat, n, cs)
  {
    FreeFromFacts(fat, n, 2);
  }

  lemma NothingTouched(fat: seq<u32>, contents: seq<Cluster>, mine: seq<u32>)
    requires |fat| == |contents|
    ensures Untouched(fat, fat, contents, contents, mine)
  {}

  lemma ContentsTouched(fat: seq<u32>, was: seq<Cluster>, now: seq<Cluster>, mine: seq<u32>)
    requires |fat| == |was| == |now| && forall c :: 0 <= c < |fat| && fat[c] != FREE ==> now[c] == was[c]
    ensures Untouched(fat, fat, was, now, mine)
  {}

  lemma LinkTouches(before: seq<u32>, middle: seq<u32>, after: seq<u32>, was: seq<Cluster>, now: seq<Cluster>,
                    mine: seq<u32>, cs: seq<u32>)
    requires Untouched(before, before, was, now, mine) && Linked(before, middle, cs)
    requires forall i :: 0 <= i < |cs| ==> cs[i] < |before| && before[cs[i]] == FREE
    requires |after| == |middle| && forall c :: 0 <= c < |after| && c !in mine ==> after[c] == middle[c]
    ensures Untouched(before, after, was, now, mine)
  {}

  // ----- what the read loop collects ----------------------------------------------------------------

  const COUNT_32 := 0x1_0000_0000

  /** The position after `done` more bytes. */
  function Place(start: nat, done: nat): nat {
    (start + done) % COUNT_32
  }

  /** How far up a read of `count` bytes comes. */
  function Reach(start: nat, count: nat): nat {
    if start + count > COUNT_32 then COUNT_32 else start + count
  }

  /** `data` is what the bytes hold from `start` on, round the 32-bit position. */
  ghost predicate Circular(raw: seq<Byte>, start: nat, data: seq<Byte>) {
    forall i :: 0 <= i < |data| ==> Place(start, i) < |raw| && data[i] == raw[Place(start, i)]
  }

  /** What reading a plain byte sequence gives. */
  ghost predicate AsSequence(content: seq<Byte>, at: nat, length: nat, status: Status, data: seq<Byte>) {
    && status == Ok
    && data == if at >= |content| then [] else content[at..if at + length < |content| then at + length else |content|]
  }

  lemma NoneRead(raw: seq<Byte>, content: seq<Byte>, start: u32, length: nat)
    ensures Circular(raw, start, []) && Place(start, 0) == start
    ensures length == 0 || start == |content| ==> AsSequence(content, start, length, Ok, [])
  {}

  /** Within a stretch that does not reach the end of the 32-bit range the places follow one another. */
  lemma PlacesFollow(start: u32, done: nat, more: nat)
    requires Place(start, done) + more <= COUNT_32
    ensures forall i :: done <= i < done + more ==> Place(start, i) == Place(start, done) + (i - done)
    ensures Place(Place(start, done), more) == Place(start, done + more)
  {}

  lemma ReadGrows(raw: seq<Byte>, start: u32, data: seq<Byte>, chunk: seq<Byte>)
    requires Circular(raw, start, data)
    requires var at := Place(start, |data|);
             at + |chunk| <= COUNT_32 && at + |chunk| <= |raw| && chunk == raw[at..at + |chunk|]
    ensures Circular(raw, start, data + chunk)
    ensures Place(Place(start, |data|), |chunk|) == Place(start, |data| + |chunk|)
  {
    var at := Place(start, |data|);
    PlacesFollow(start, |data|, |chunk|);
    hide Place;
    forall i | 0 <= i < |data + chunk| ensures Place(start, i) < |raw| && (data + chunk)[i] == raw[Place(start, i)] {
      if i >= |data| {
        assert chunk[i - |data|] == raw[at + (i - |data|)];
      }
    }
  }

  lemma ReadCovers(raw: seq<Byte>, start: u32, data: seq<Byte>)
    requires Circular(raw, start, data)
    ensures data != [] ==> Reach(start, |data|) <= |raw|
  {
    if data != [] {
      var last := if start + |data| > COUNT_32 then COUNT_32 - 1 - start else |data| - 1;
      assert Place(start, last) < |raw|;
    }
  }

  lemma ReadStops(raw: seq<Byte>, start: u32, data: seq<Byte>, wanted: nat)
    requires Circular(raw, start, data) && |data| < wanted
    ensures Place(start, |data|) >= |raw| ==> Reach(start, wanted) > |raw|
  {
    if start + |data| >= COUNT_32 {
      assert Place(start, COUNT_32 - 1 - start) < |raw|;
    }
  }

  lemma PrefixOfRaw(contents: seq<Cluster>, chain: seq<u32>, size: nat)
    requires Within(chain, |contents|) && size <= |chain| * CLUSTER_BYTES
    ensures FileBytes(contents, chain, size) == FileBytes(contents, chain, |chain| * CLUSTER_BYTES)[..size]
  {}

  lemma InsideIsRaw(p: Primary, content: seq<Byte>, raw: seq<Byte>, start: u32, length: nat, wanted: nat)
    requires |content| == p.fileSize <= |raw| && content == raw[..p.fileSize]
    requires wanted == (if length > (p.fileSize as int - start as int) % COUNT_32
                        then (p.fileSize as int - start as int) % COUNT_32 else length)
    ensures start < p.fileSize ==> Reach(start, wanted) <= |raw|
    ensures start < p.fileSize ==> forall data :: Circular(raw, start, data) && |data| == wanted ==>
            AsSequence(content, start, length, Ok, data)
    ensures start > p.fileSize && length > 0 ==> wanted > 0
    ensures forall status, data :: AsSequence(content, start, length, status, data) ==>
              status == Ok && (start > p.fileSize ==> data == [])
  {
    if start < p.fileSize {
      forall data | Circular(raw, start, data)
        && |data| == wanted ensures AsSequence(content, start, length, Ok, data) {
        forall i | 0 <= i < wanted ensures data[i] == content[start + i] {
          assert Place(start, i) == start + i;
        }
      }
    }
  }

  lemma DistinctChain(fat: seq<u32>, n: nat, start: u32, chain: seq<u32>)
    requires n <= |fat| && (chain == [] || IsChain(fat, n, start, chain))
    ensures Distinct(chain)
  {}

  lemma ChainNotFree(fat: seq<u32>, n: nat, start: u32, chain: seq<u32>)
    requires n <= |fat| && (chain == [] || IsChain(fat, n, start, chain))
    ensures forall i :: 0 <= i < |chain| ==> fat[chain[i]] != FREE
  {
    forall i | 0 <= i < |chain| ensures fat[chain[i]] != FREE {
      ChainEntriesNotFree(fat, n, start, chain, i);
    }
  }
}
