/**
  The file allocation table as a value: what a cluster chain is, and what allocation and
  release do to a table.  Everything the loops of `FatTable` compute is specified here.
*/
module FatChain {
  import opened Bytes
  import opened Collections
  import opened Status

  const FREE: u32 := 0
  const MAX_DATA_CLUSTER: u32 := 0x0fff_ffef
  const RESERVED_FIRST: u32 := 0x0fff_fff0
  const RESERVED_LAST: u32 := 0x0fff_fff6
  const BAD: u32 := 0x0fff_fff7
  const EOC_FIRST: u32 := 0x0fff_fff8
  const END_OF_CHAIN: u32 := 0x0fff_ffff
  const VALUE_LIMIT: u32 := 0x1000_0000 // one above the 28-bit value mask

  predicate ValidCluster(cluster: int, n: nat) {
    2 <= cluster < n && cluster <= MAX_DATA_CLUSTER
  }

  predicate ValidEntryCount(n: nat) {
    2 < n <= MAX_DATA_CLUSTER + 1
  }

  /** What one table entry says about the cluster that owns it. */
  datatype Next = End | Link(cluster: u32) | Fault(status: Status)

  function ClassifyNext(raw: u32, n: nat): Next {
    if raw >= VALUE_LIMIT then Fault(Protocol)
    else if raw >= EOC_FIRST then End
    else if raw == FREE || raw == BAD || RESERVED_FIRST <= raw <= RESERVED_LAST
            || !ValidCluster(raw, n) then Fault(Corrupt)
    else Link(raw)
  }

  // ----- paths and chains ---------------------------------------------------------------------

  ghost predicate Distinct(s: seq<u32>) {
    forall i, j :: 0 <= i < j < |s| ==> s[i] != s[j]
  }

  ghost predicate Steps(fat: seq<u32>, n: nat, a: u32, b: u32)
    requires n <= |fat|
  {
    ValidCluster(a, n) && ClassifyNext(fat[a], n) == Link(b)
  }

  /** A walk that follows the table, repetitions allowed. */
  ghost predicate IsPath(fat: seq<u32>, n: nat, start: u32, path: seq<u32>)
    requires n <= |fat|
  {
    && |path| > 0 && path[0] == start
    && (forall i :: 0 <= i < |path| ==> ValidCluster(path[i], n))
    && (forall i, j :: 0 <= i && j == i + 1 && j < |path| ==> Steps(fat, n, path[i], path[j]))
  }

  ghost predicate Ends(fat: seq<u32>, n: nat, path: seq<u32>)
    requires n <= |fat| && |path| > 0
  {
    var last := path[|path| - 1];
    ValidCluster(last, n) && ClassifyNext(fat[last], n) == End
  }

  /** The one notion of well-formedness: finite, in range, repetition-free, EOC-terminated. */
  ghost predicate IsChain(fat: seq<u32>, n: nat, start: u32, chain: seq<u32>)
    requires n <= |fat|
  {
    IsPath(fat, n, start, chain) && Distinct(chain) && Ends(fat, n, chain)
  }

  ghost predicate HasChain(fat: seq<u32>, n: nat, start: u32)
    requires n <= |fat|
  {
    exists chain :: IsChain(fat, n, start, chain)
  }

  /** Two walks from the same cluster agree as far as both go. */
  lemma {:induction false} PathsAgree(fat: seq<u32>, n: nat, start: u32, p: seq<u32>, q: seq<u32>, k: nat)
    requires n <= |fat| && IsPath(fat, n, start, p) && IsPath(fat, n, start, q)
    requires k < |p| && k < |q|
    ensures p[k] == q[k]
  {
    if k > 0 {
      PathsAgree(fat, n, start, p, q, k - 1);
      assert Steps(fat, n, p[k - 1], p[k]) && Steps(fat, n, q[k - 1], q[k]);
    }
  }

  /** A walk cannot go past a cluster whose entry ends the chain. */
  lemma EndStops(fat: seq<u32>, n: nat, start: u32, p: seq<u32>, q: seq<u32>)
    requires n <= |fat| && IsPath(fat, n, start, p) && IsPath(fat, n, start, q) && Ends(fat, n, p)
    ensures |q| <= |p|
    ensures forall k :: 0 <= k < |q| ==> q[k] == p[k]
  {
    assert |q| > |p| ==> Steps(fat, n, q[|p| - 1], q[|p|]);
    if |q| > |p| {
      PathsAgree(fat, n, start, p, q, |p| - 1);
    }
    forall k | 0 <= k < |q| ensures q[k] == p[k] {
      PathsAgree(fat, n, start, p, q, k);
    }
  }

  lemma ChainUnique(fat: seq<u32>, n: nat, start: u32, p: seq<u32>, q: seq<u32>)
    requires n <= |fat| && IsChain(fat, n, start, p) && IsChain(fat, n, start, q)
    ensures p == q
  {
    EndStops(fat, n, start, p, q);
    EndStops(fat, n, start, q, p);
  }

  /** If a walk meets a cluster twice it is periodic from there on. */
  lemma {:induction false} RepeatShifts(fat: seq<u32>, n: nat, start: u32, p: seq<u32>, i: nat, j: nat, k: nat)
    requires n <= |fat| && IsPath(fat, n, start, p)
    requires i <= j && j + k < |p| && p[i] == p[j]
    ensures p[i + k] == p[j + k]
  {
    if k > 0 {
      RepeatShifts(fat, n, start, p, i, j, k - 1);
      assert Steps(fat, n, p[i + k - 1], p[i + k]) && Steps(fat, n, p[j + k - 1], p[j + k]);
    }
  }

  /** A walk that reaches an end marker never visited a cluster twice. */
  lemma EndingPathIsChain(fat: seq<u32>, n: nat, start: u32, p: seq<u32>)
    requires n <= |fat| && IsPath(fat, n, start, p) && Ends(fat, n, p)
    ensures IsChain(fat, n, start, p)
  {
    forall i, j | 0 <= i < j < |p| ensures p[i] != p[j] {
      var k := |p| - 1 - j;
      assert Steps(fat, n, p[i + k], p[i + k + 1]);
      if p[i] == p[j] {
        RepeatShifts(fat, n, start, p, i, j, k);
      }
    }
  }

  /** A repeated cluster anywhere on a walk rules a chain out. */
  lemma RepeatMeansNoChain(fat: seq<u32>, n: nat, start: u32, p: seq<u32>, i: nat, j: nat)
    requires n <= |fat| && IsPath(fat, n, start, p) && i < j < |p| && p[i] == p[j]
    ensures !HasChain(fat, n, start)
  {
    forall chain | IsChain(fat, n, start, chain) ensures false {
      EndStops(fat, n, start, chain, p);
    }
  }

  /** A walk that stands on a faulty entry rules a chain out. */
  lemma FaultMeansNoChain(fat: seq<u32>, n: nat, start: u32, p: seq<u32>)
    requires n <= |fat| && IsPath(fat, n, start, p)
    requires ClassifyNext(fat[p[|p| - 1]], n).Fault?
    ensures !HasChain(fat, n, start)
  {
    forall chain | IsChain(fat, n, start, chain) ensures false {
      assert |p| < |chain| ==> Steps(fat, n, chain[|p| - 1], chain[|p|]);
      EndStops(fat, n, start, chain, p);
    }
  }

  lemma PathExtends(fat: seq<u32>, n: nat, start: u32, p: seq<u32>, next: u32)
    requires n <= |fat| && IsPath(fat, n, start, p)
    requires ClassifyNext(fat[p[|p| - 1]], n) == Link(next)
    ensures IsPath(fat, n, start, p + [next])
  {
    var q := p + [next];
    forall i, j | 0 <= i && j == i + 1 && j < |q| ensures Steps(fat, n, q[i], q[j]) {
      if j < |p| {
        assert Steps(fat, n, p[i], p[j]);
      }
    }
  }

  /** Pigeonhole: distinct clusters of a table with n entries number at most n - 2. */
  lemma DistinctFits(s: seq<u32>, n: nat)
    requires ValidEntryCount(n) && Distinct(s)
    requires forall i :: 0 <= i < |s| ==> ValidCluster(s[i], n)
    ensures |s| <= n - 2
  {
    DistinctCount(s);
    SubsetSize(Elements(s), Range(2, n));
  }

  function Range(lo: int, hi: int): (r: set<int>)
    requires lo <= hi
    ensures |r| == hi - lo
    ensures forall x :: x in r <==> lo <= x < hi
    decreases hi - lo
  {
    if lo == hi then {} else {lo} + Range(lo + 1, hi)
  }

  /** A walk longer than the table cannot be the beginning of a chain. */
  lemma LongPathMeansNoChain(fat: seq<u32>, n: nat, start: u32, path: seq<u32>)
    requires n <= |fat| && ValidEntryCount(n) && IsPath(fat, n, start, path) && |path| > n - 2
    ensures !HasChain(fat, n, start)
  {
    forall chain | IsChain(fat, n, start, chain) ensures false {
      EndStops(fat, n, start, chain, path);
      DistinctFits(chain, n);
    }
  }

  // ----- allocation and release as relations on tables ----------------------------------------

  /** The free data clusters of a table at or above `lo`, in increasing order. */
  function FreeFrom(fat: seq<u32>, n: nat, lo: nat): (free: seq<u32>)
    requires n <= |fat| && ValidEntryCount(n) && lo <= n
    decreases n - lo
  {
    if lo == n then []
    else if fat[lo] == FREE then [lo] + FreeFrom(fat, n, lo + 1)
    else FreeFrom(fat, n, lo + 1)
  }

  function FreeClusters(fat: seq<u32>, n: nat): seq<u32>
    requires n <= |fat| && ValidEntryCount(n)
  {
    FreeFrom(fat, n, 2)
  }

  /** `after` is `before` with exactly `cs` linked into one terminated chain, in order. */
  ghost predicate Linked(before: seq<u32>, after: seq<u32>, cs: seq<u32>) {
    && |after| == |before|
    && (forall c :: 0 <= c < |before| && c !in cs ==> after[c] == before[c])
    && (forall i {:trigger Successor(cs, i)} :: 0 <= i < |cs| ==>
          cs[i] < |after| && after[cs[i]] == Successor(cs, i))
  }

  function Successor(cs: seq<u32>, i: nat): u32 {
    if i + 1 < |cs| then cs[i + 1] else END_OF_CHAIN
  }

  /** `after` is `before` with exactly `cs` marked free. */
  ghost predicate Released(before: seq<u32>, after: seq<u32>, cs: seq<u32>) {
    && |after| == |before|
    && forall c :: 0 <= c < |before| ==> after[c] == (if c in cs then FREE else before[c])
  }

  /** `free` lists, in increasing order, exactly the free clusters at or above `lo`. */
  ghost predicate IsFreeList(fat: seq<u32>, n: nat, lo: nat, free: seq<u32>)
    requires n <= |fat|
  {
    && (forall i :: 0 <= i < |free| ==> lo <= free[i] < n && fat[free[i]] == FREE)
    && (forall i, j :: 0 <= i < j < |free| ==> free[i] < free[j])
    && (forall c :: lo <= c < n && fat[c] == FREE ==> c in free)
  }

  lemma FreeListGrows(fat: seq<u32>, n: nat, lo: u32, rest: seq<u32>)
    requires n <= |fat| && lo < n && fat[lo] == FREE && IsFreeList(fat, n, lo + 1, rest)
    ensures IsFreeList(fat, n, lo, [lo] + rest)
  {
    var f := [lo] + rest;
    assert forall i :: 1 <= i < |f| ==> f[i] == rest[i - 1];
    forall c | lo <= c < n && fat[c] == FREE ensures c in f {
      assert f[0] == lo;
      assert c != lo ==> c in rest;
    }
  }

  lemma FreeListSkips(fat: seq<u32>, n: nat, lo: nat, rest: seq<u32>)
    requires n <= |fat| && lo < n && fat[lo] != FREE && IsFreeList(fat, n, lo + 1, rest)
    ensures IsFreeList(fat, n, lo, rest)
  {}

  lemma {:induction false} FreeFromFacts(fat: seq<u32>, n: nat, lo: nat)
    requires n <= |fat| && ValidEntryCount(n) && lo <= n
    ensures IsFreeList(fat, n, lo, FreeFrom(fat, n, lo))
    decreases n - lo
  {
    if lo == n {
      assert FreeFrom(fat, n, lo) == [];
    } else {
      hide IsFreeList;
      FreeFromFacts(fat, n, lo + 1);
      if fat[lo] == FREE {
        FreeListGrows(fat, n, lo, FreeFrom(fat, n, lo + 1));
      } else {
        FreeListSkips(fat, n, lo, FreeFrom(fat, n, lo + 1));
      }
    }
  }

  /** Linking free clusters yields exactly that chain, and it is well formed. */
  lemma LinkedIsChain(before: seq<u32>, after: seq<u32>, n: nat, cs: seq<u32>)
    requires n <= |before| && ValidEntryCount(n) && |cs| > 0 && Distinct(cs)
    requires forall i :: 0 <= i < |cs| ==> 2 <= cs[i] < n
    requires Linked(before, after, cs)
    ensures IsChain(after, n, cs[0], cs)
  {
    forall i | 0 <= i < |cs| ensures ValidCluster(cs[i], n) && ClassifyNext(cs[i], n) == Link(cs[i]) {
      LinkClassifies(cs[i], n);
    }
    forall i, j | 0 <= i && j == i + 1 && j < |cs| ensures Steps(after, n, cs[i], cs[j]) {
      assert after[cs[i]] == Successor(cs, i) == cs[j];
    }
    assert after[cs[|cs| - 1]] == Successor(cs, |cs| - 1) == END_OF_CHAIN;
  }

  lemma LinkClassifies(c: u32, n: nat)
    requires ValidEntryCount(n) && 2 <= c < n
    ensures ValidCluster(c, n) && ClassifyNext(c, n) == Link(c)
  {}

  /** A chain survives any change of the table outside its own clusters. */
  lemma ChainFrame(before: seq<u32>, after: seq<u32>, n: nat, start: u32, chain: seq<u32>)
    requires n <= |before| && n <= |after| && IsChain(before, n, start, chain)
    requires forall i :: 0 <= i < |chain| ==> after[chain[i]] == before[chain[i]]
    ensures IsChain(after, n, start, chain)
  {
    forall i, j | 0 <= i && j == i + 1 && j < |chain| ensures Steps(after, n, chain[i], chain[j]) {
      assert Steps(before, n, chain[i], chain[j]);
    }
  }

  lemma ChainEntriesNotFree(fat: seq<u32>, n: nat, start: u32, chain: seq<u32>, i: nat)
    requires n <= |fat| && IsChain(fat, n, start, chain) && i < |chain|
    ensures fat[chain[i]] != FREE
  {
    if i + 1 < |chain| {
      assert Steps(fat, n, chain[i], chain[i + 1]);
    }
  }

  /** Allocation disturbs no existing chain and the new chain is disjoint from all of them. */
  lemma AllocationPreservesChains(before: seq<u32>, after: seq<u32>, n: nat, cs: seq<u32>, start: u32, chain: seq<u32>)
    requires n <= |before| && ValidEntryCount(n)
    requires forall i :: 0 <= i < |cs| ==> 2 <= cs[i] < n && before[cs[i]] == FREE
    requires Linked(before, after, cs)
    requires IsChain(before, n, start, chain)
    ensures IsChain(after, n, start, chain)
    ensures forall c :: c in chain ==> c !in cs
  {
    forall i | 0 <= i < |chain| ensures chain[i] !in cs {
      ChainEntriesNotFree(before, n, start, chain, i);
    }
    ChainFrame(before, after, n, start, chain);
  }

  /** Releasing a chain that was just allocated restores the table bit for bit. */
  lemma ReleaseUndoesAllocation(before: seq<u32>, middle: seq<u32>, after: seq<u32>, n: nat, cs: seq<u32>)
    requires n <= |before| && ValidEntryCount(n)
    requires forall i :: 0 <= i < |cs| ==> 2 <= cs[i] < n && before[cs[i]] == FREE
    requires Linked(before, middle, cs) && Released(middle, after, cs)
    ensures after == before
  {
    forall c | 0 <= c < |before| ensures after[c] == before[c] {
      if c in cs {
        var i :| 0 <= i < |cs| && cs[i] == c;
        assert Released(middle, after, cs);
      }
    }
  }

  /** The free pool depends only on which entries are free. */
  lemma {:induction false} FreeFromFrame(a: seq<u32>, b: seq<u32>, n: nat, lo: nat)
    requires n <= |a| && n <= |b| && ValidEntryCount(n) && lo <= n
    requires forall c :: lo <= c < n ==> (a[c] == FREE <==> b[c] == FREE)
    ensures FreeFrom(a, n, lo) == FreeFrom(b, n, lo)
    decreases n - lo
  {
    if lo < n {
      FreeFromFrame(a, b, n, lo + 1);
    }
  }

  /**
    First-fit allocation of `k` clusters takes exactly the k lowest free clusters out of the pool:
    the conservation law for free space.
  */
  lemma {:induction false} AllocationConsumes(before: seq<u32>, after: seq<u32>, n: nat, k: nat, lo: nat)
    requires n <= |before| && ValidEntryCount(n) && lo <= n && n <= |after|
    requires k <= |FreeFrom(before, n, lo)|
    requires forall c :: lo <= c < n ==>
      (after[c] == FREE <==> before[c] == FREE && c !in FreeFrom(before, n, lo)[..k])
    ensures FreeFrom(after, n, lo) == FreeFrom(before, n, lo)[k..]
    decreases n - lo
  {
    if lo < n {
      var f, rest := FreeFrom(before, n, lo), FreeFrom(before, n, lo + 1);
      FreeFromFacts(before, n, lo + 1);
      if before[lo] != FREE {
        AllocationConsumes(before, after, n, k, lo + 1);
      } else if k == 0 {
        FreeFromFrame(before, after, n, lo);
      } else {
        assert f[..k] == [lo] + rest[..k - 1];
        AllocationConsumes(before, after, n, k - 1, lo + 1);
      }
    }
  }
}
