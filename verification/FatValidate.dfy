/**
  The table validators of fat.c: each decides the same `IsChain` predicate as the walk does,
  by different means (an owner map, a bare step count).
*/
module FatValidate {
  import opened Bytes
  import opened Status
  import opened FatChain

  ghost predicate Disjoint(a: seq<u32>, b: seq<u32>) {
    forall c :: c in a ==> c !in b
  }

  /** Every start has a chain of its own and no cluster belongs to two of them. */
  ghost predicate Owned(fat: seq<u32>, n: nat, starts: seq<u32>, chains: seq<seq<u32>>)
    requires n <= |fat|
  {
    && |chains| == |starts|
    && (forall o :: 0 <= o < |starts| ==> IsChain(fat, n, starts[o], chains[o]))
    && (forall o, p :: 0 <= o < p < |starts| ==> Disjoint(chains[o], chains[p]))
  }

  ghost predicate MapShows(owners: seq<u32>, n: nat, chains: seq<seq<u32>>)
    requires n <= |owners|
  {
    forall c :: 0 <= c < n ==>
      && (owners[c] != 0 ==> owners[c] <= |chains| && c in chains[owners[c] - 1])
      && (owners[c] == 0 ==> forall o :: 0 <= o < |chains| ==> c !in chains[o])
  }

  ghost predicate Unclaimed(owners: seq<u32>, chain: seq<u32>) {
    forall c :: c in chain ==> c < |owners| && owners[c] == 0
  }

  /** The inner walk of the ownership check: claim the whole chain of one owner or fail. */
  method ClaimChain(fat: array<u32>, n: nat, start: u32, mark: u32, owners: array<u32>)
    returns (status: Status, ghost chain: seq<u32>)
    requires n <= fat.Length && n <= owners.Length && fat != owners && ValidEntryCount(n) && mark != 0
    modifies owners
    ensures status in {Ok, Corrupt, Protocol}
    ensures status == Ok <==>
            exists c :: IsChain(fat[..], n, start, c) && Unclaimed(old(owners[..]), c)
    ensures status == Ok ==>
            && IsChain(fat[..], n, start, chain)
            && (forall c :: 0 <= c < n ==> owners[c] == (if c in chain then mark else old(owners[c])))
  {
    ghost var before, table := owners[..], fat[..];
    chain := [];
    if !ValidCluster(start, n) {
      return Corrupt, [];
    }
    var cluster, traversed := start, 0;
    while traversed < n
      invariant |chain| == traversed
      invariant IsPath(table, n, start, chain + [cluster])
      invariant Distinct(chain) && Unclaimed(before, chain)
      invariant forall c :: 0 <= c < n ==> owners[c] == (if c in chain then mark else before[c])
    {
      ghost var path := chain + [cluster];
      assert path[traversed] == cluster;
      if !ValidCluster(cluster, n) || owners[cluster] != 0 {
        if cluster in chain {
          ghost var i :| 0 <= i < |chain| && chain[i] == cluster;
          assert path[i] == path[traversed];
          RepeatMeansNoChain(table, n, start, path, i, traversed);
        } else {
          forall c | IsChain(table, n, start, c) ensures !Unclaimed(before, c) {
            EndStops(table, n, start, c, path);
            assert c[traversed] == cluster;
          }
        }
        return Corrupt, chain;
      }
      owners[cluster] := mark;
      traversed := traversed + 1;
      chain := path;
      match ClassifyNext(fat[cluster], n) {
        case Fault(fault) =>
          FaultMeansNoChain(table, n, start, path);
          return fault, chain;
        case End =>
          assert IsChain(fat[..], n, start, chain) && Unclaimed(old(owners[..]), chain);
          return Ok, chain;
        case Link(next) =>
          PathExtends(table, n, start, path, next);
          cluster := next;
      }
    }
    assert forall i :: 0 <= i < |chain| ==> chain[i] == (chain + [cluster])[i];
    DistinctFits(chain, n);
    assert false;
    status := Corrupt;
  }

  method ValidateOwnership(fat: array<u32>, n: nat, starts: array<u32>, owners: array<u32>)
    returns (status: Status)
    requires n <= fat.Length && owners != fat && owners != starts
    modifies owners
    ensures status in {Ok, InvalidArgument, Corrupt, Protocol}
    ensures status == InvalidArgument <==>
            starts.Length == 0 || !ValidEntryCount(n) || owners.Length < n || starts.Length > 0xffff_ffff
    ensures status != InvalidArgument ==>
            (status == Ok <==> exists chains :: Owned(fat[..], n, starts[..], chains))
    ensures status == Ok ==>
            exists chains :: Owned(fat[..], n, starts[..], chains) && MapShows(owners[..], n, chains)
  {
    if starts.Length == 0 || !ValidEntryCount(n) || owners.Length < n || starts.Length > 0xffff_ffff {
      return InvalidArgument;
    }
    for c := 0 to n
      invariant forall i :: 0 <= i < c ==> owners[i] == 0
    {
      owners[c] := 0;
    }
    ghost var table, begin := fat[..], starts[..];
    ghost var chains: seq<seq<u32>> := [];
    for owner := 0 to starts.Length
      invariant |chains| == owner
      invariant Owned(table, n, begin[..owner], chains)
      invariant MapShows(owners[..], n, chains)
    {
      ghost var before := owners[..];
      ghost var chain;
      status, chain := ClaimChain(fat, n, starts[owner], owner + 1, owners);
      if status.Failed() {
        NotOwned(table, n, begin, chains, before, owner);
        return;
      }
      assert Unclaimed(before, chain) by {
        ghost var other :| IsChain(table, n, begin[owner], other) && Unclaimed(before, other);
        ChainUnique(table, n, begin[owner], chain, other);
      }
      OwnedExtends(table, n, begin, chains, before, owners[..], owner, chain);
      chains := chains + [chain];
    }
    assert begin[..starts.Length] == begin;
    assert Owned(fat[..], n, starts[..], chains);
    return Ok;
  }

  lemma OwnedExtends(fat: seq<u32>, n: nat, starts: seq<u32>, chains: seq<seq<u32>>,
                     before: seq<u32>, after: seq<u32>, owner: nat, chain: seq<u32>)
    requires n <= |fat| && n <= |before| && n <= |after| && owner < |starts|
    requires Owned(fat, n, starts[..owner], chains) && MapShows(before, n, chains)
    requires IsChain(fat, n, starts[owner], chain)
    requires Unclaimed(before, chain)
    requires forall c :: 0 <= c < n ==> after[c] == (if c in chain then owner + 1 else before[c])
    ensures Owned(fat, n, starts[..owner + 1], chains + [chain])
    ensures MapShows(after, n, chains + [chain])
  {
    var all := chains + [chain];
    assert starts[..owner + 1] == starts[..owner] + [starts[owner]];
  }

  /** If one owner's walk fails against the map, no family of disjoint chains exists. */
  lemma NotOwned(fat: seq<u32>, n: nat, starts: seq<u32>, chains: seq<seq<u32>>, owners: seq<u32>, owner: nat)
    requires n <= |fat| && n <= |owners| && owner < |starts|
    requires Owned(fat, n, starts[..owner], chains) && MapShows(owners, n, chains)
    requires forall c :: IsChain(fat, n, starts[owner], c) ==> !Unclaimed(owners, c)
    ensures !exists all :: Owned(fat, n, starts, all)
  {
    forall all | Owned(fat, n, starts, all) ensures false {
      assert IsChain(fat, n, starts[owner], all[owner]);
      var c :| c in all[owner] && owners[c] != 0;
      var o := owners[c] - 1;
      assert starts[..owner][o] == starts[o];
      assert Disjoint(all[o], all[owner]);
      ChainUnique(fat, n, starts[o], chains[o], all[o]);
    }
  }

  /**
    Size validation by counting steps only: no visited set, yet it accepts exactly the starts
    whose chain is well formed and large enough.
  */
  method ValidateFileCapacity(fat: array<u32>, n: nat, start: u32, fileSize: u32, clusterBytes: u32)
    returns (status: Status)
    requires n <= fat.Length
    ensures fileSize == 0 ==> status == (if start == 0 then Ok else Corrupt)
    ensures fileSize != 0 ==>
            (status == InvalidArgument <==>
             clusterBytes == 0 || !ValidEntryCount(n) || !ValidCluster(start, n))
    ensures fileSize != 0 && status != InvalidArgument ==>
            (status == Ok <==> Covers(fat[..], n, start, fileSize, clusterBytes))
  {
    if fileSize == 0 {
      return if start == 0 then Ok else Corrupt;
    }
    if clusterBytes == 0 || !ValidEntryCount(n) || !ValidCluster(start, n) {
      return InvalidArgument;
    }
    ghost var table := fat[..];
    ghost var path: seq<u32> := [];
    var slow, capacity, traversed := start, 0, 0;
    while traversed < n
      invariant |path| == traversed <= n && capacity == Capacity(path, clusterBytes)
      invariant IsPath(table, n, start, path + [slow])
    {
      assert (path + [slow])[traversed] == slow;
      if !ValidCluster(slow, n) {
        assert false;
        return Corrupt;
      }
      traversed := traversed + 1;
      capacity := capacity + clusterBytes;
      path := path + [slow];
      assert capacity == Capacity(path, clusterBytes);
      match ClassifyNext(fat[slow], n) {
        case Fault(fault) =>
          FaultMeansNoChain(table, n, start, path);
          return fault;
        case End =>
          EndingPathIsChain(table, n, start, path);
          forall chain | IsChain(table, n, start, chain) ensures chain == path {
            ChainUnique(table, n, start, chain, path);
          }
          return if capacity >= fileSize then Ok else Corrupt;
        case Link(next) =>
          PathExtends(table, n, start, path, next);
          slow := next;
      }
    }
    LongPathMeansNoChain(table, n, start, path + [slow]);
    return Corrupt;
  }

  function Capacity(chain: seq<u32>, clusterBytes: u32): nat {
    |chain| * clusterBytes
  }

  ghost predicate Covers(fat: seq<u32>, n: nat, start: u32, fileSize: u32, clusterBytes: u32)
    requires n <= |fat|
  {
    exists chain :: IsChain(fat, n, start, chain) && Capacity(chain, clusterBytes) >= fileSize
  }
}
