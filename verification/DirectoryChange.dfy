/**
  What creating, renaming or deleting a file does to a later scan of its directory: exactly the one
  entry appears, changes or disappears, and base names stay unique.
*/
module DirectoryChange {
  import opened Bytes
  import opened Status
  import opened Records
  import opened Directory

  function WithPair(slots: seq<Record>, k: nat, companion: Record, primary: Record): (r: seq<Record>)
    requires k + 1 < |slots|
    ensures |r| == |slots|
  {
    slots[k := companion][k + 1 := primary]
  }

  /** The cells a scan passes before slot `k` do not depend on the records at `k` and `k + 1`. */
  lemma PrefixUnchanged(slots: seq<Record>, k: nat, companion: Record, primary: Record)
    requires k + 1 < |slots| && Visits(Cells(slots), 0, k)
    ensures var other := Cells(WithPair(slots, k, companion, primary));
      Visits(other, 0, k) && Collect(other, 0, k) == Collect(Cells(slots), 0, k)
  {
    var cells, changed := Cells(slots), WithPair(slots, k, companion, primary);
    var other := Cells(changed);
    hide CellAt;
    forall j | 0 <= j < k && Visits(cells, j, k) ensures other[j] == cells[j] {
      assert cells[j] == CellAt(slots, j) && other[j] == CellAt(changed, j);
      if j + 1 == k {
        if cells[j].Item? && cells[j].entry.kind == Regular {
          VisitsForward(cells, j + 2, k);
        }
        SingleCell(slots, changed, j);
      } else {
        SameCell(slots, changed, j);
      }
    }
    WayFrame(cells, other, 0, k);
  }

  lemma SameCell(a: seq<Record>, b: seq<Record>, j: nat)
    requires |a| == |b| && j + 1 < |a| && a[j] == b[j] && a[j + 1] == b[j + 1]
    ensures CellAt(a, j) == CellAt(b, j)
  {}

  /** A cell that is neither a file nor unsound comes from one record alone. */
  lemma SingleCell(a: seq<Record>, b: seq<Record>, j: nat)
    requires |a| == |b| && j < |a| && a[j] == b[j]
    requires !CellAt(a, j).Bad? && (CellAt(a, j).Item? ==> CellAt(a, j).entry.kind != Regular)
    ensures CellAt(a, j) == CellAt(b, j)
  {}

  lemma SuffixUnchanged(slots: seq<Record>, k: nat, companion: Record, primary: Record)
    requires k + 1 < |slots|
    ensures Walk(Cells(WithPair(slots, k, companion, primary)), k + 2) == Walk(Cells(slots), k + 2)
  {
    var cells, changed := Cells(slots), WithPair(slots, k, companion, primary);
    forall j | k + 2 <= j < |slots| ensures Cells(changed)[j] == cells[j] {
      assert cells[j] == CellAt(slots, j) && Cells(changed)[j] == CellAt(changed, j);
    }
    WalkFrame(cells, Cells(changed), k + 2);
  }

  /** A sound pair is exactly one entry, a deleted pair is none. */
  lemma PairWalk(slots: seq<Record>, k: nat)
    requires k + 1 < |slots|
    ensures Pair(slots[k], slots[k + 1]).Some? ==>
              (match Walk(Cells(slots), k + 2)
               case Success(rest) =>
                 Walk(Cells(slots), k) == Success([FileEntry(Pair(slots[k], slots[k + 1]).value, k)] + rest)
               case Failure(_) => true)
    ensures slots[k][0] == DELETED && slots[k + 1][0] == DELETED ==>
              Walk(Cells(slots), k) == Walk(Cells(slots), k + 2)
  {
    var cells := Cells(slots);
    assert cells[k] == CellAt(slots, k) && cells[k + 1] == CellAt(slots, k + 1);
    if Pair(slots[k], slots[k + 1]).Some? {
      assert slots[k][0] == COMPANION_TYPE;
      assert cells[k] == Item(FileEntry(Pair(slots[k], slots[k + 1]).value, k));
    }
  }

  function FileEntry(p: Primary, k: nat): Entry {
    Entry(p, k + 1, Some(k), Regular)
  }

  /** A free pair, in a directory whose unused tail is all zero, contributes nothing either. */
  lemma FreePairWalk(slots: seq<Record>, k: nat)
    requires k + 1 < |slots| && ZeroTail(slots) && Unused(slots[k]) && Unused(slots[k + 1])
    ensures Walk(Cells(slots), k) == Walk(Cells(slots), k + 2)
  {
    var cells := Cells(slots);
    assert cells[k] == CellAt(slots, k) && cells[k + 1] == CellAt(slots, k + 1);
    if k + 2 < |slots| {
      assert cells[k + 2] == CellAt(slots, k + 2);
      assert slots[k][0] == 0 ==> slots[k + 2][0] == 0;
      assert slots[k + 1][0] == 0 ==> slots[k + 2][0] == 0;
    }
  }

  ghost predicate BaseIsNew(entries: seq<Entry>, name: Name) {
    forall n :: 0 <= n < |entries| && entries[n].kind != Internal ==>
      entries[n].primary.name[..8] != name[..8]
  }

  /** No named entry other than `e` has the base of `name`. */
  ghost predicate OnlyMayShareBase(entries: seq<Entry>, e: Entry, name: Name) {
    forall m :: 0 <= m < |entries| && entries[m] != e && entries[m].kind != Internal ==>
      entries[m].primary.name[..8] != name[..8]
  }

  lemma InsertKeepsBases(before: seq<Entry>, after: seq<Entry>, e: Entry)
    requires BasesDistinct(before + after) && BaseIsNew(before + after, e.primary.name)
    ensures BasesDistinct(before + [e] + after)
  {
    var all, others := before + [e] + after, before + after;
    forall a, b | 0 <= a < b < |all| && all[a].kind != Internal && all[b].kind != Internal
      ensures all[a].primary.name[..8] != all[b].primary.name[..8]
    {
      var x, y := if a <= |before| then a else a - 1, if b <= |before| then b else b - 1;
      assert a != |before| ==> all[a] == others[x];
      assert b != |before| ==> all[b] == others[y];
    }
  }

  lemma RemoveKeepsBases(before: seq<Entry>, after: seq<Entry>, e: Entry)
    requires BasesDistinct(before + [e] + after)
    ensures BasesDistinct(before + after)
  {
    var all, others := before + [e] + after, before + after;
    forall a, b | 0 <= a < b < |others| && others[a].kind != Internal && others[b].kind != Internal
      ensures others[a].primary.name[..8] != others[b].primary.name[..8]
    {
      var x, y := if a < |before| then a else a + 1, if b < |before| then b else b + 1;
      assert all[x] == others[a] && all[y] == others[b];
    }
  }

  /** Scanning after a create reports the old entries plus exactly the new one. */
  lemma CreateScans(slots: seq<Record>, k: nat, companion: Record, primary: Record, p: Primary)
    returns (before: seq<Entry>, after: seq<Entry>)
    requires Scan(slots).Success? && BasesDistinct(Scan(slots).value) && ZeroTail(slots)
    requires k + 1 < |slots| && PairFree(slots, k) && forall j :: 0 <= j < k ==> !PairFree(slots, j)
    requires Pair(companion, primary) == Some(p) && BaseIsNew(Scan(slots).value, p.name)
    ensures Scan(slots).value == before + after
    ensures var changed := WithPair(slots, k, companion, primary);
      && Scan(changed) == Success(before + [FileEntry(p, k)] + after)
      && BasesDistinct(Scan(changed).value) && ZeroTail(changed)
  {
    var cells, changed := Cells(slots), WithPair(slots, k, companion, primary);
    FirstFreeIsReached(slots, k);
    PrefixUnchanged(slots, k, companion, primary);
    SuffixUnchanged(slots, k, companion, primary);
    ScanIsWalk(cells, 0, []);
    WalkSplits(cells, 0, k);
    FreePairWalk(slots, k);
    PairWalk(changed, k);
    before, after := Collect(cells, 0, k), Walk(cells, k + 2).value;
    var e := FileEntry(p, k);
    assert [] + Walk(cells, 0).value == before + after;
    InsertKeepsBases(before, after, e);
    Finish(changed, k, before, e, after);
    assert changed[k][0] == COMPANION_TYPE && changed[k + 1][0] != 0;
  }

  lemma Finish(changed: seq<Record>, k: nat, before: seq<Entry>, e: Entry, after: seq<Entry>)
    requires Visits(Cells(changed), 0, k) && Collect(Cells(changed), 0, k) == before
    requires Walk(Cells(changed), k) == Success([e] + after)
    requires BasesDistinct(before + [e] + after)
    ensures Scan(changed) == Success(before + [e] + after)
  {
    hide CellAt, Named;
    WalkSplits(Cells(changed), 0, k);
    CellsAreSound(changed);
    assert before + ([e] + after) == before + [e] + after;
    assert [] + Walk(Cells(changed), 0).value == before + [e] + after;
    BasesImplyNames(before + [e] + after);
    WalkIsScan(Cells(changed), 0, []);
  }

  /** The pair that the first-fit search picks is in the scanned part or right at its end. */
  lemma FirstFreeIsReached(slots: seq<Record>, k: nat)
    requires Scan(slots).Success? && ZeroTail(slots)
    requires k + 1 < |slots| && PairFree(slots, k) && forall j :: 0 <= j < k ==> !PairFree(slots, j)
    ensures Visits(Cells(slots), 0, k) && Unused(slots[k]) && Unused(slots[k + 1])
    ensures forall j :: 0 <= j < k ==> slots[j][0] != 0
  {
    var cells := Cells(slots);
    forall j | 0 <= j < k ensures slots[j][0] != 0 {
      ZeroIsFree(slots, j);
    }
    hide PairFree, AfterEnd, ZeroTail, Sound;
    forall j | 0 <= j < k ensures !cells[j].End? {
      assert cells[j] == CellAt(slots, j);
      EndIsZero(slots, j);
    }
    assert cells[k] == CellAt(slots, k);
    FreeCell(slots, k);
    CellsAreSound(slots);
    hide CellAt;
    FreeSlotIsVisited(cells, 0, k, []);
  }

  lemma ZeroIsFree(slots: seq<Record>, j: nat)
    requires j + 1 < |slots|
    ensures slots[j][0] == 0 ==> PairFree(slots, j)
  {
    if slots[j][0] == 0 {
      assert AfterEnd(slots, j);
    }
  }

  lemma EndIsZero(slots: seq<Record>, j: nat)
    requires j < |slots|
    ensures CellAt(slots, j).End? <==> slots[j][0] == 0
  {}

  lemma FreeCell(slots: seq<Record>, j: nat)
    requires j < |slots| && Unused(slots[j])
    ensures CellAt(slots, j).End? || CellAt(slots, j).Hole?
  {}

  /** The scan of a directory that holds a sound pair at a visited slot. */
  lemma ScanAtPair(slots: seq<Record>, k: nat) returns (before: seq<Entry>, after: seq<Entry>)
    requires Scan(slots).Success? && k + 1 < |slots| && Visits(Cells(slots), 0, k)
    requires Pair(slots[k], slots[k + 1]).Some?
    ensures before == Collect(Cells(slots), 0, k) && Walk(Cells(slots), k + 2) == Success(after)
    ensures Scan(slots).value == before + [FileEntry(Pair(slots[k], slots[k + 1]).value, k)] + after
  {
    hide DecodePrimary, DecodeInternal, DecodeCompanion;
    var cells := Cells(slots);
    ScanIsWalk(cells, 0, []);
    WalkSplits(cells, 0, k);
    assert cells[k] == CellAt(slots, k);
    PairStarts(slots[k], slots[k + 1]);
    PairWalk(slots, k);
    before, after := Collect(cells, 0, k), Walk(cells, k + 2).value;
    var e := FileEntry(Pair(slots[k], slots[k + 1]).value, k);
    assert [] + Walk(cells, 0).value == before + ([e] + after) == before + [e] + after;
  }

  /** Renaming a file, or giving it new content, changes exactly its own entry. */
  lemma ReplaceScans(slots: seq<Record>, k: nat, companion: Record, primary: Record, p: Primary)
    returns (before: seq<Entry>, after: seq<Entry>)
    requires Scan(slots).Success? && BasesDistinct(Scan(slots).value) && ZeroTail(slots)
    requires k + 1 < |slots| && Visits(Cells(slots), 0, k) && Pair(slots[k], slots[k + 1]).Some?
    requires Pair(companion, primary) == Some(p)
    requires OnlyMayShareBase(Scan(slots).value, FileEntry(Pair(slots[k], slots[k + 1]).value, k), p.name)
    ensures Scan(slots).value == before + [FileEntry(Pair(slots[k], slots[k + 1]).value, k)] + after
    ensures var changed := WithPair(slots, k, companion, primary);
      && Scan(changed) == Success(before + [FileEntry(p, k)] + after)
      && BasesDistinct(Scan(changed).value) && ZeroTail(changed)
  {
    var changed, e := WithPair(slots, k, companion, primary), FileEntry(Pair(slots[k], slots[k + 1]).value, k);
    before, after := ScanAtPair(slots, k);
    PrefixUnchanged(slots, k, companion, primary);
    SuffixUnchanged(slots, k, companion, primary);
    PairWalk(changed, k);
    RemoveKeepsBases(before, after, e);
    OthersAreNew(before, after, e, p.name);
    InsertKeepsBases(before, after, FileEntry(p, k));
    Finish(changed, k, before, FileEntry(p, k), after);
    assert changed[k][0] == COMPANION_TYPE && changed[k + 1][0] != 0;
    assert slots[k][0] == COMPANION_TYPE && slots[k + 1][0] != 0;
  }

  lemma OthersAreNew(before: seq<Entry>, after: seq<Entry>, e: Entry, name: Name)
    requires BasesDistinct(before + [e] + after) && e.kind != Internal
    requires OnlyMayShareBase(before + [e] + after, e, name)
    ensures BaseIsNew(before + after, name)
  {
    var all, others := before + [e] + after, before + after;
    forall m | 0 <= m < |others| && others[m].kind != Internal
      ensures others[m].primary.name[..8] != name[..8]
    {
      var x := if m < |before| then m else m + 1;
      assert all[x] == others[m] && all[|before|] == e;
      assert all[x] != e;
    }
  }

  /** Deleting a file removes exactly its own entry. */
  lemma DeleteScans(slots: seq<Record>, k: nat, first: Record, second: Record)
    returns (before: seq<Entry>, after: seq<Entry>)
    requires Scan(slots).Success? && BasesDistinct(Scan(slots).value) && ZeroTail(slots)
    requires k + 1 < |slots| && Visits(Cells(slots), 0, k) && Pair(slots[k], slots[k + 1]).Some?
    requires first[0] == second[0] == DELETED
    ensures Scan(slots).value == before + [FileEntry(Pair(slots[k], slots[k + 1]).value, k)] + after
    ensures var changed := WithPair(slots, k, first, second);
      && Scan(changed) == Success(before + after)
      && BasesDistinct(Scan(changed).value) && ZeroTail(changed)
  {
    var changed, e := WithPair(slots, k, first, second), FileEntry(Pair(slots[k], slots[k + 1]).value, k);
    before, after := ScanAtPair(slots, k);
    PrefixUnchanged(slots, k, first, second);
    SuffixUnchanged(slots, k, first, second);
    PairWalk(changed, k);
    RemoveKeepsBases(before, after, e);
    WalkSplits(Cells(changed), 0, k);
    CellsAreSound(changed);
    assert [] + Walk(Cells(changed), 0).value == before + after;
    BasesImplyNames(before + after);
    WalkIsScan(Cells(changed), 0, []);
    assert slots[k][0] == COMPANION_TYPE && slots[k + 1][0] != 0;
  }
}
