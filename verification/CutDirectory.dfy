/**
  What the directory cluster of an interrupted operation lists after a power cut: the other entries and
  the file before or after, or nothing at all, depending on which of the target's two records survived.
*/
module CutDirectory {
  import opened Bytes
  import opened Status
  import opened Layout
  import opened Records
  import opened BlockDevice
  import opened CrashSafety
  import opened CommitSteps
  import opened Quiescence
  import opened Lookup
  import opened DirectoryState
  import Directory
  import DirectoryChange

  /** The entry that two neighbouring records make, if they make one. */
  function Shows(first: Record, second: Record, k: nat): seq<Directory.Entry> {
    match Pair(first, second)
    case Some(p) => [DirectoryChange.FileEntry(p, k)]
    case None => []
  }

  /** Both records are out of a scan's way. */
  predicate Gone(first: Record, second: Record) {
    first[0] == 0 || (first[0] == DELETED && Directory.Unused(second))
  }

  lemma WalkAtPair(slots: seq<Record>, k: nat)
    requires k + 1 < |slots| && Directory.Walk(Directory.Cells(slots), k + 2).Success?
    requires slots[k][0] in {0, DELETED, COMPANION_TYPE}
    requires slots[k + 1][0] in {0, DELETED} || FilePrimary(slots[k + 1]).Some?
    requires slots[k][0] == 0 || slots[k + 1][0] == 0 ==> k + 2 < |slots| ==> slots[k + 2][0] == 0
    ensures var rest := Directory.Walk(Directory.Cells(slots), k + 2).value;
      && (Directory.Walk(Directory.Cells(slots), k).Success? <==>
            Pair(slots[k], slots[k + 1]).Some? || Gone(slots[k], slots[k + 1]))
      && (Directory.Walk(Directory.Cells(slots), k).Success? ==>
            Directory.Walk(Directory.Cells(slots), k) == Success(Shows(slots[k], slots[k + 1], k) + rest))
  {
    hide Directory.CellAt, FilePrimary, Pair;
    var cells := Directory.Cells(slots);
    TargetCell(slots, k);
    PairTags(slots[k], slots[k + 1]);
    var rest := Directory.Walk(cells, k + 2).value;
    assert [] + rest == rest;
    if slots[k][0] != COMPANION_TYPE {
      EndCell(slots, k + 1);
      if k + 2 < |slots| {
        EndCell(slots, k + 2);
      }
    }
  }

  lemma TargetCell(slots: seq<Record>, k: nat)
    requires k + 1 < |slots|
    ensures slots[k][0] == 0 ==> Directory.Cells(slots)[k] == Directory.End
    ensures slots[k][0] == DELETED ==> Directory.Cells(slots)[k] == Directory.Hole
    ensures slots[k][0] == COMPANION_TYPE ==>
              match Pair(slots[k], slots[k + 1])
              case Some(p) => Directory.Cells(slots)[k] == Directory.Item(DirectoryChange.FileEntry(p, k))
              case None => Directory.Cells(slots)[k].Bad?
  {
    assert Directory.Cells(slots)[k] == Directory.CellAt(slots, k);
  }

  lemma EndCell(slots: seq<Record>, k: nat)
    requires k < |slots|
    ensures slots[k][0] == 0 ==> Directory.Cells(slots)[k] == Directory.End
    ensures slots[k][0] == DELETED ==> Directory.Cells(slots)[k] == Directory.Hole
    ensures FilePrimary(slots[k]).Some? ==> Directory.Cells(slots)[k].Bad?
  {
    assert Directory.Cells(slots)[k] == Directory.CellAt(slots, k);
    if FilePrimary(slots[k]).Some? {
      LonePrimaryIsUnsound(slots, k);
    }
  }

  /**
    A pair of records in a directory that scanned before, replaced by whatever an operation may leave
    there: when the scan succeeds again, and what it then lists.
  */
  lemma CutScan(slots: seq<Record>, k: nat, first: Record, second: Record)
    returns (before: seq<Directory.Entry>, after: seq<Directory.Entry>)
    requires Directory.Scan(slots).Success? && Directory.ZeroTail(slots)
    requires k + 1 < |slots| && Directory.Visits(Directory.Cells(slots), 0, k)
    requires Pair(slots[k], slots[k + 1]).Some? || (Directory.Unused(slots[k]) && Directory.Unused(slots[k + 1]))
    requires first == slots[k] || first[0] == COMPANION_TYPE || first[0] == DELETED
    requires second == slots[k + 1] || FilePrimary(second).Some? || second[0] == DELETED
    ensures Directory.Scan(slots).value == before + Shows(slots[k], slots[k + 1], k) + after
    ensures var changed := DirectoryChange.WithPair(slots, k, first, second);
      && (Directory.Scan(changed).Success? <==>
            || (Pair(first, second).Some? && Directory.NamesDistinct(before + Shows(first, second, k) + after))
            || Gone(first, second))
      && (Directory.Scan(changed).Success? ==>
            Directory.Scan(changed).value == before + Shows(first, second, k) + after)
  {
    hide Directory.Cells, Directory.CellAt, Pair, FilePrimary;
    var cells, changed := Directory.Cells(slots), DirectoryChange.WithPair(slots, k, first, second);
    PairTags(slots[k], slots[k + 1]);
    PrimaryTag(second);
    Directory.ScanExact(slots);
    Directory.ScanExact(changed);
    DirectoryChange.PrefixUnchanged(slots, k, first, second);
    DirectoryChange.SuffixUnchanged(slots, k, first, second);
    Directory.WalkSplits(cells, 0, k);
    RestWalks(slots, k);
    before, after := Directory.Collect(cells, 0, k), Directory.Walk(cells, k + 2).value;
    WalkThrough(slots, k);
    WalkThrough(changed, k);
    OthersDistinct(before, Shows(slots[k], slots[k + 1], k), after);
    GoneShowsNothing(first, second, k);
    assert before + [] + after == before + after;
  }

  /** A walk that gets to the pair gets through it exactly when the pair is whole or out of the way. */
  lemma WalkThrough(slots: seq<Record>, k: nat)
    requires k + 1 < |slots| && Directory.Visits(Directory.Cells(slots), 0, k)
    requires Directory.Walk(Directory.Cells(slots), k + 2).Success?
    requires slots[k][0] in {0, DELETED, COMPANION_TYPE}
    requires slots[k + 1][0] in {0, DELETED} || FilePrimary(slots[k + 1]).Some?
    requires slots[k][0] == 0 || slots[k + 1][0] == 0 ==> k + 2 < |slots| ==> slots[k + 2][0] == 0
    ensures var before, rest :=
      Directory.Collect(Directory.Cells(slots), 0, k), Directory.Walk(Directory.Cells(slots), k + 2).value;
      && (Directory.Walk(Directory.Cells(slots), 0).Success? <==>
            Pair(slots[k], slots[k + 1]).Some? || Gone(slots[k], slots[k + 1]))
      && (Directory.Walk(Directory.Cells(slots), 0).Success? ==>
            Directory.Walk(Directory.Cells(slots), 0) == Success(before + Shows(slots[k], slots[k + 1], k) + rest))
  {
    hide Directory.Cells, Directory.CellAt, Pair, FilePrimary, Shows, Gone;
    var cells := Directory.Cells(slots);
    var before, rest := Directory.Collect(cells, 0, k), Directory.Walk(cells, k + 2).value;
    WalkAtPair(slots, k);
    assert before + (Shows(slots[k], slots[k + 1], k) + rest) == before + Shows(slots[k], slots[k + 1], k) + rest;
    if Directory.Walk(cells, k).Success? || Directory.Walk(cells, 0).Success? {
      Directory.WalkSplits(cells, 0, k);
    }
  }

  lemma GoneShowsNothing(first: Record, second: Record, k: nat)
    ensures Gone(first, second) ==> Shows(first, second, k) == []
    ensures Pair(first, second).Some? ==> !Gone(first, second)
  {
    PairTags(first, second);
  }

  lemma RestWalks(slots: seq<Record>, k: nat)
    requires k + 1 < |slots| && Directory.ZeroTail(slots) && Directory.Walk(Directory.Cells(slots), k).Success?
    requires Pair(slots[k], slots[k + 1]).Some? || (Directory.Unused(slots[k]) && Directory.Unused(slots[k + 1]))
    ensures Directory.Walk(Directory.Cells(slots), k + 2).Success?
  {
    var cells := Directory.Cells(slots);
    assert cells[k] == Directory.CellAt(slots, k);
    if Pair(slots[k], slots[k + 1]).Some? {
      PairTags(slots[k], slots[k + 1]);
      assert cells[k] == Directory.Item(DirectoryChange.FileEntry(Pair(slots[k], slots[k + 1]).value, k));
    } else {
      DirectoryChange.FreePairWalk(slots, k);
    }
  }

  lemma OthersDistinct(before: seq<Directory.Entry>, middle: seq<Directory.Entry>, after: seq<Directory.Entry>)
    requires Directory.NamesDistinct(before + middle + after)
    ensures Directory.NamesDistinct(before + after)
  {
    var all, others := before + middle + after, before + after;
    forall a, b | 0 <= a < b < |others| && others[a].kind != Directory.Internal && others[b].kind != Directory.Internal
      ensures others[a].primary.name != others[b].primary.name
    {
      var x, y := if a < |before| then a else a + |middle|, if b < |before| then b else b + |middle|;
      assert all[x] == others[a] && all[y] == others[b];
    }
  }

  lemma PrimaryTag(r: Record)
    ensures FilePrimary(r).Some? ==> r[0] != 0 && r[0] != DELETED && r[0] != COMPANION_TYPE
  {
    if r[0] in {0, DELETED, COMPANION_TYPE} {
      TaggedIsNoPrimary(r);
    }
  }

  lemma PairTags(first: Record, second: Record)
    ensures Pair(first, second).Some? ==> first[0] == COMPANION_TYPE && FilePrimary(second).Some? && second[0] != 0
  {
    PrimaryTag(second);
  }

  // ----- whole images -------------------------------------------------------------------------------

  /** The operation has a sound place to work on in a directory cluster that scans. */
  ghost predicate Aimed(op: Op) {
    && op.Valid() && OnTheWay(op.v, op.start, op.target) && WholeOrFree(op.v, op.start, op.target)
    && Directory.ZeroTail(DirSlots(op.v, op.start, op.target.cluster))
  }

  /** The entry that an image shows at a pair, if it shows one. */
  ghost function EntryShown(v: Volume, disk: Disk, at: Slot): seq<Directory.Entry>
    requires v.Holds(disk) && v.IsPair(at)
  {
    Shows(RecordAt(disk, v.g, at), RecordAt(disk, v.g, Second(at)), at.index)
  }

  /**
    Every image that a power cut during the operation can leave lists, in the cluster it worked on, all
    other entries and the file as its surviving records give it, or it cannot be scanned.  It can be
    scanned exactly when the two records are a pair whose name is nobody else's, or both out of the way.
  */
  lemma CutLists(op: Op, d: Disk) returns (before: seq<Directory.Entry>, after: seq<Directory.Entry>)
    requires Aimed(op) && Atomic(op, d)
    ensures Listing(op.v, op.start, op.target.cluster) == before + EntryShown(op.v, op.start, op.target) + after
    ensures Scans(op.v, d, op.target.cluster) <==>
              || (PairAt(op.v, d, op.target).Some?
                  && Directory.NamesDistinct(before + EntryShown(op.v, d, op.target) + after))
              || Gone(RecordAt(d, op.v.g, op.target), RecordAt(d, op.v.g, Second(op.target)))
    ensures Scans(op.v, d, op.target.cluster) ==>
              Listing(op.v, d, op.target.cluster) == before + EntryShown(op.v, d, op.target) + after
  {
    hide Directory.Scan, Pair, FilePrimary, Directory.Cells, Allowed, Guarded;
    var c, k := op.target.cluster, op.target.index;
    var first, second := RecordAt(d, op.v.g, op.target), RecordAt(d, op.v.g, Second(op.target));
    assert op.target == Slot(c, k) && Second(op.target) == Slot(c, k + 1);
    CutSlots(op, d);
    before, after := CutScan(DirSlots(op.v, op.start, c), k, first, second);
  }

  lemma CutSlots(op: Op, d: Disk)
    requires op.Valid() && op.v.Holds(d) && RestKept(op, d)
    ensures DirSlots(op.v, d, op.target.cluster) ==
            DirectoryChange.WithPair(DirSlots(op.v, op.start, op.target.cluster), op.target.index,
              RecordAt(d, op.v.g, op.target), RecordAt(d, op.v.g, Second(op.target)))
  {
    hide FirstKept, SecondKept;
    var c, k := op.target.cluster, op.target.index;
    var slots := DirSlots(op.v, d, c);
    var expected := DirectoryChange.WithPair(DirSlots(op.v, op.start, c), k,
      RecordAt(d, op.v.g, op.target), RecordAt(d, op.v.g, Second(op.target)));
    forall i | 0 <= i < SLOTS ensures slots[i] == expected[i] {
      assert op.v.IsSlot(Slot(c, i));
      assert i == k ==> Slot(c, i) == op.target;
      assert i == k + 1 ==> Slot(c, i) == Second(op.target);
    }
  }
}
