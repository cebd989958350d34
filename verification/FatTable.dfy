/**
  The loops of fat.c over a caller-owned table and workspace, proved against `FatChain`.
*/
module FatTable {
  import opened Bytes
  import opened Status
  import opened FatChain

  /** The walk from `start` visits more than `capacity` different clusters. */
  ghost predicate Overruns(fat: seq<u32>, n: nat, start: u32, capacity: nat)
    requires n <= |fat|
  {
    exists path :: IsPath(fat, n, start, path) && Distinct(path) && |path| == capacity + 1
  }

  ghost predicate FitsIn(fat: seq<u32>, n: nat, start: u32, capacity: nat)
    requires n <= |fat|
  {
    exists chain :: IsChain(fat, n, start, chain) && |chain| <= capacity
  }

  lemma OverrunDoesNotFit(fat: seq<u32>, n: nat, start: u32, capacity: nat)
    requires n <= |fat| && Overruns(fat, n, start, capacity)
    ensures !FitsIn(fat, n, start, capacity)
  {
    var path :| IsPath(fat, n, start, path) && Distinct(path) && |path| == capacity + 1;
    forall chain | IsChain(fat, n, start, chain) ensures |chain| > capacity {
      EndStops(fat, n, start, chain, path);
    }
  }

  lemma NoOverrun(fat: seq<u32>, n: nat, start: u32, path: seq<u32>, capacity: nat)
    requires n <= |fat| && IsPath(fat, n, start, path) && |path| <= capacity + 1
    requires
      || (ClassifyNext(fat[path[|path| - 1]], n).Fault? && |path| <= capacity)
      || (Ends(fat, n, path) && |path| <= capacity)
      || !Distinct(path)
    ensures !Overruns(fat, n, start, capacity)
  {
    forall longer | IsPath(fat, n, start, longer) && |longer| == capacity + 1 ensures !Distinct(longer) {
      assert |path| < |longer| ==> Steps(fat, n, longer[|path| - 1], longer[|path|]);
      forall k | 0 <= k < |path| ensures longer[k] == path[k] {
        PathsAgree(fat, n, start, path, longer, k);
      }
    }
  }

  /** The walk ends on an entry that is neither a link nor the end of a chain. */
  ghost predicate Faults(fat: seq<u32>, n: nat, start: u32, path: seq<u32>)
    requires n <= |fat|
  {
    IsPath(fat, n, start, path) && ClassifyNext(fat[path[|path| - 1]], n).Fault?
  }

  /** Why there is no chain of at most `capacity` clusters: no such start, too long, a bad entry, or a loop. */
  ghost function WalkError(fat: seq<u32>, n: nat, start: u32, capacity: nat): Status
    requires n <= |fat|
  {
    if !ValidEntryCount(n) || capacity == 0 || !ValidCluster(start, n) then InvalidArgument
    else if Overruns(fat, n, start, capacity) then NoSpace
    else if exists path :: Faults(fat, n, start, path) then
      var path :| Faults(fat, n, start, path);
      ClassifyNext(fat[path[|path| - 1]], n).status
    else Corrupt
  }

  /** There is one place at most where a walk can fault. */
  lemma FaultDecides(fat: seq<u32>, n: nat, start: u32, path: seq<u32>, capacity: nat)
    requires n <= |fat| && ValidEntryCount(n) && capacity != 0 && ValidCluster(start, n)
    requires Faults(fat, n, start, path) && !Overruns(fat, n, start, capacity)
    ensures WalkError(fat, n, start, capacity) == ClassifyNext(fat[path[|path| - 1]], n).status
  {
    forall other | Faults(fat, n, start, other) ensures other[|other| - 1] == path[|path| - 1] {
      assert |path| < |other| ==> Steps(fat, n, other[|path| - 1], other[|path|]);
      assert |other| < |path| ==> Steps(fat, n, path[|other| - 1], path[|other|]);
      if |path| <= |other| {
        PathsAgree(fat, n, start, path, other, |path| - 1);
      } else {
        PathsAgree(fat, n, start, path, other, |other| - 1);
      }
    }
  }

  /** A walk that comes back to a cluster goes round for ever and meets no bad entry. */
  lemma LoopDecides(fat: seq<u32>, n: nat, start: u32, path: seq<u32>, i: nat, j: nat, capacity: nat)
    requires n <= |fat| && ValidEntryCount(n) && capacity != 0 && ValidCluster(start, n)
    requires IsPath(fat, n, start, path) && i < j < |path| && path[i] == path[j] && !Overruns(fat, n, start, capacity)
    ensures WalkError(fat, n, start, capacity) == Corrupt
  {
    forall other | IsPath(fat, n, start, other) ensures ClassifyNext(fat[other[|other| - 1]], n).Link? {
      LoopGoesOn(fat, n, start, path, i, j, other);
    }
  }

  lemma LoopGoesOn(fat: seq<u32>, n: nat, start: u32, path: seq<u32>, i: nat, j: nat, other: seq<u32>)
    requires n <= |fat| && IsPath(fat, n, start, path) && i < j < |path| && path[i] == path[j]
    requires IsPath(fat, n, start, other)
    ensures ClassifyNext(fat[other[|other| - 1]], n).Link?
  {
    var last := |other| - 1;
    if last < j {
      PathsAgree(fat, n, start, path, other, last);
      assert Steps(fat, n, path[last], path[last + 1]);
    } else {
      PathsAgree(fat, n, start, path, other, i);
      PathsAgree(fat, n, start, path, other, j);
      RepeatShifts(fat, n, start, other, i, j, last - j);
      assert Steps(fat, n, other[i + last - j], other[i + last - j + 1]);
    }
  }

  method Traverse(fat: array<u32>, n: nat, start: u32, clusters: array<u32>)
    returns (status: Status, count: nat)
    requires n <= fat.Length && fat != clusters
    modifies clusters
    ensures count <= clusters.Length
    ensures status in {Ok, InvalidArgument, NoSpace, Corrupt, Protocol}
    ensures status == InvalidArgument <==>
            !ValidEntryCount(n) || clusters.Length == 0 || !ValidCluster(start, n)
    ensures status != InvalidArgument ==>
            && (status == Ok <==> FitsIn(fat[..], n, start, clusters.Length))
            && (status == NoSpace <==> Overruns(fat[..], n, start, clusters.Length))
    ensures status != Ok ==> status == WalkError(fat[..], n, start, clusters.Length)
    ensures status == Ok ==> IsChain(fat[..], n, start, clusters[..count])
  {
    count := 0;
    if !ValidEntryCount(n) || clusters.Length == 0 || !ValidCluster(start, n) {
      return InvalidArgument, 0;
    }
    var cluster := start;
    while count < n
      invariant count <= clusters.Length
      invariant IsPath(fat[..], n, start, clusters[..count] + [cluster])
      invariant Distinct(clusters[..count])
    {
      ghost var path := clusters[..count] + [cluster];
      assert path[count] == cluster;
      if !ValidCluster(cluster, n) {
        assert false;
        return Corrupt, count;
      }
      for prior := 0 to count
        invariant cluster !in clusters[..prior]
      {
        if clusters[prior] == cluster {
          assert path[prior] == path[count];
          RepeatMeansNoChain(fat[..], n, start, path, prior, count);
          NoOverrun(fat[..], n, start, path, clusters.Length);
          LoopDecides(fat[..], n, start, path, prior, count, clusters.Length);
          return Corrupt, count;
        }
      }
      assert Distinct(path);
      if count == clusters.Length {
        OverrunDoesNotFit(fat[..], n, start, clusters.Length);
        return NoSpace, count;
      }
      clusters[count] := cluster;
      count := count + 1;
      assert clusters[..count] == path;
      match ClassifyNext(fat[cluster], n) {
        case Fault(fault) =>
          FaultMeansNoChain(fat[..], n, start, path);
          NoOverrun(fat[..], n, start, path, clusters.Length);
          FaultDecides(fat[..], n, start, path, clusters.Length);
          return fault, count;
        case End =>
          NoOverrun(fat[..], n, start, path, clusters.Length);
          return Ok, count;
        case Link(next) =>
          PathExtends(fat[..], n, start, path, next);
          cluster := next;
      }
    }
    ghost var visited := clusters[..count];
    assert forall i :: 0 <= i < count ==> visited[i] == (visited + [cluster])[i];
    DistinctFits(visited, n);
    assert false;
    status := Corrupt;
  }

  /** The search loop of the allocator: the lowest free clusters, at most `requested` of them. */
  method CollectFree(fat: array<u32>, n: nat, requested: nat, clusters: array<u32>, at: nat)
    returns (found: nat)
    requires n <= fat.Length && fat != clusters && ValidEntryCount(n) && at + requested <= clusters.Length
    modifies clusters
    ensures found <= requested && at + found <= clusters.Length
    ensures found == requested <==> requested <= |FreeClusters(fat[..], n)|
    ensures clusters[at..at + found] <= FreeClusters(fat[..], n)
    ensures clusters[..at] == old(clusters[..at])
  {
    found := 0;
    var cluster := 2;
    while cluster < n && found < requested
      invariant 2 <= cluster <= n && found <= requested
      invariant clusters[at..at + found] + FreeFrom(fat[..], n, cluster) == FreeClusters(fat[..], n)
      invariant clusters[..at] == old(clusters[..at])
    {
      if fat[cluster] == FREE {
        clusters[at + found] := cluster;
        found := found + 1;
        assert clusters[at..at + found] == clusters[at..at + found - 1] + [cluster];
      }
      cluster := cluster + 1;
    }
  }

  /** The linking loop of the allocator. */
  method LinkClusters(fat: array<u32>, clusters: array<u32>, at: nat, requested: nat)
    requires fat != clusters && at + requested <= clusters.Length
    requires Distinct(clusters[at..at + requested])
    requires forall i :: at <= i < at + requested ==> clusters[i] < fat.Length
    modifies fat
    ensures Linked(old(fat[..]), fat[..], clusters[at..at + requested])
  {
    ghost var cs := clusters[at..at + requested];
    for index := 0 to requested
      invariant forall c :: 0 <= c < fat.Length && c !in cs ==> fat[c] == old(fat[c])
      invariant forall i {:trigger Successor(cs, i)} :: 0 <= i < index ==> fat[cs[i]] == Successor(cs, i)
    {
      assert clusters[at + index] == cs[index];
      assert index + 1 < requested ==> clusters[at + index + 1] == cs[index + 1];
      fat[clusters[at + index]] := if index + 1 < requested then clusters[at + index + 1] else END_OF_CHAIN;
      assert fat[cs[index]] == Successor(cs, index);
    }
  }

  /**
    First fit, all or nothing.  The workspace is written from `at` on, because the caller may
    append to a chain that already fills its beginning.
  */
  method Allocate(fat: array<u32>, n: nat, requested: nat, clusters: array<u32>, at: nat)
    returns (status: Status, count: nat)
    requires n <= fat.Length && fat != clusters && at <= clusters.Length
    modifies fat, clusters
    ensures status in {Ok, InvalidArgument, NoSpace}
    ensures status == InvalidArgument <==>
            !ValidEntryCount(n) || requested == 0 || requested > clusters.Length - at
    ensures status != InvalidArgument ==>
            (status == Ok <==> requested <= |FreeClusters(old(fat[..]), n)|)
    ensures status != Ok ==> fat[..] == old(fat[..])
    ensures status == Ok ==>
            && count == requested
            && clusters[at..at + requested] == FreeClusters(old(fat[..]), n)[..requested]
            && Linked(old(fat[..]), fat[..], clusters[at..at + requested])
    ensures clusters[..at] == old(clusters[..at])
  {
    if !ValidEntryCount(n) || requested == 0 || requested > clusters.Length - at {
      return InvalidArgument, 0;
    }
    var found := CollectFree(fat, n, requested, clusters, at);
    if found != requested {
      return NoSpace, 0;
    }
    assert clusters[at..at + requested] == FreeClusters(fat[..], n)[..requested];
    FreeFromFacts(fat[..], n, 2);
    assert forall i :: at <= i < at + requested ==> clusters[i] == FreeClusters(fat[..], n)[i - at];
    LinkClusters(fat, clusters, at, requested);
    return Ok, requested;
  }

  method Free(fat: array<u32>, n: nat, start: u32, workspace: array<u32>)
    returns (status: Status, count: nat)
    requires n <= fat.Length && fat != workspace
    modifies fat, workspace
    ensures count <= workspace.Length
    ensures status == Ok <==> ValidEntryCount(n) && FitsIn(old(fat[..]), n, start, workspace.Length)
    ensures status != Ok ==>
            fat[..] == old(fat[..]) && status == WalkError(old(fat[..]), n, start, workspace.Length)
    ensures status == Ok ==>
            && IsChain(old(fat[..]), n, start, workspace[..count])
            && Released(old(fat[..]), fat[..], workspace[..count])
  {
    ghost var before := fat[..];
    status, count := Traverse(fat, n, start, workspace);
    if status.Failed() {
      return;
    }
    ghost var chain := workspace[..count];
    for index := 0 to count
      invariant workspace[..count] == chain
      invariant forall c :: 0 <= c < fat.Length ==>
                fat[c] == (if c in chain[..index] then FREE else before[c])
    {
      assert workspace[index] == chain[index];
      assert chain[..index + 1] == chain[..index] + [chain[index]];
      fat[workspace[index]] := FREE;
    }
    assert chain[..count] == chain;
  }
}
