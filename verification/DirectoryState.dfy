/**
  A whole directory, which may span several clusters: what a scan of it reports before and after an
  operation, and that no two of its entries ever share a base name.
*/
module DirectoryState {
  import opened Bytes
  import opened Status
  import opened Layout
  import opened Records
  import opened FatChain
  import opened BlockDevice
  import opened CrashSafety
  import opened CommitSteps
  import opened Quiescence
  import opened ServiceSteps
  import opened Lookup
  import Directory
  import DirectoryChange

  ghost function Listing(v: Volume, disk: Disk, c: nat): seq<Directory.Entry>
    requires v.Holds(disk) && Scans(v, disk, c)
  {
    Directory.Scan(DirSlots(v, disk, c)).value
  }

  /** No named entry of one listing has the base name of a named entry of the other. */
  ghost predicate Apart(a: seq<Directory.Entry>, b: seq<Directory.Entry>) {
    forall x, y :: x in a && y in b && x.kind != Directory.Internal && y.kind != Directory.Internal ==>
      x.primary.name[..8] != y.primary.name[..8]
  }

  ghost predicate TidyCluster(v: Volume, disk: Disk, c: nat)
    requires v.Holds(disk)
  {
    Scans(v, disk, c) && Directory.BasesDistinct(Listing(v, disk, c)) && Directory.ZeroTail(DirSlots(v, disk, c))
  }

  /** Every cluster scans, base names are unique across all of them, unused slots come last. */
  ghost predicate Tidy(v: Volume, disk: Disk, cs: seq<u32>)
    requires v.Holds(disk)
  {
    && (forall i :: 0 <= i < |cs| ==> TidyCluster(v, disk, cs[i]))
    && (forall i, j :: 0 <= i < j < |cs| ==> cs[i] != cs[j] && Apart(Listing(v, disk, cs[i]), Listing(v, disk, cs[j])))
  }

  lemma SameRecordsItself(v: Volume, disk: Disk)
    requires v.Holds(disk)
    ensures SameRecords(v, disk, disk)
  {}

  lemma RecordsChangedFrame(v: Volume, a: Disk, b: Disk, c: Disk, d: Disk, at: Slot, first: Record, second: Record)
    requires v.Holds(a) && v.Holds(b) && SameRecords(v, a, b) && RecordsChanged(v, b, c, at, first, second)
    requires v.Holds(d) && SameRecords(v, c, d)
    ensures RecordsChanged(v, a, d, at, first, second)
  {
    assert v.IsSlot(at) && v.IsSlot(Second(at));
  }

  lemma ChangedSlots(v: Volume, disk: Disk, disk': Disk, at: Slot, first: Record, second: Record)
    requires RecordsChanged(v, disk, disk', at, first, second)
    ensures DirSlots(v, disk', at.cluster) ==
              DirectoryChange.WithPair(DirSlots(v, disk, at.cluster), at.index, first, second)
    ensures forall c :: c in v.dirs && c != at.cluster ==> DirSlots(v, disk', c) == DirSlots(v, disk, c)
  {
    var slots, c := DirSlots(v, disk', at.cluster), at.cluster;
    var expected := DirectoryChange.WithPair(DirSlots(v, disk, c), at.index, first, second);
    forall i | 0 <= i < SLOTS ensures slots[i] == expected[i] {
      assert v.IsSlot(Slot(c, i));
      assert i == at.index ==> Slot(c, i) == at;
      assert i == at.index + 1 ==> Slot(c, i) == Second(at);
    }
    forall d | d in v.dirs && d != c ensures DirSlots(v, disk', d) == DirSlots(v, disk, d) {
      assert forall i :: 0 <= i < SLOTS ==> v.IsSlot(Slot(d, i)) && Slot(d, i) != at && Slot(d, i) != Second(at);
    }
  }

  /** Replacing one listing by one that is apart from all others keeps the directory tidy. */
  lemma TidyStep(v: Volume, disk: Disk, disk': Disk, cs: seq<u32>, c: nat)
    requires v.Holds(disk) && v.Holds(disk') && Tidy(v, disk, cs)
    requires forall d :: d in v.dirs && d != c ==> DirSlots(v, disk', d) == DirSlots(v, disk, d)
    requires c in cs ==> TidyCluster(v, disk', c)
    requires forall i :: c in cs && 0 <= i < |cs| && cs[i] != c ==> Apart(Listing(v, disk', c), Listing(v, disk, cs[i]))
    ensures Tidy(v, disk', cs)
  {
    forall i | 0 <= i < |cs|
      ensures TidyCluster(v, disk', cs[i]) && (cs[i] != c ==> Listing(v, disk', cs[i]) == Listing(v, disk, cs[i]))
    {
      assert TidyCluster(v, disk, cs[i]);
    }
  }

  /** One listing gains exactly one entry, the new file's. */
  ghost predicate EntryAppears(v: Volume, disk: Disk, disk': Disk, at: Slot, p: Primary)
    requires v.Holds(disk) && v.Holds(disk')
  {
    && Scans(v, disk, at.cluster) && Scans(v, disk', at.cluster)
    && exists before, after ::
         && Listing(v, disk, at.cluster) == before + after
         && Listing(v, disk', at.cluster) == before + [DirectoryChange.FileEntry(p, at.index)] + after
  }

  /** One entry of one listing is replaced by another at the same place. */
  ghost predicate EntryChanges(v: Volume, disk: Disk, disk': Disk, at: Slot, p: Primary, p': Primary)
    requires v.Holds(disk) && v.Holds(disk')
  {
    && Scans(v, disk, at.cluster) && Scans(v, disk', at.cluster)
    && exists before, after ::
         && Listing(v, disk, at.cluster) == before + [DirectoryChange.FileEntry(p, at.index)] + after
         && Listing(v, disk', at.cluster) == before + [DirectoryChange.FileEntry(p', at.index)] + after
  }

  /** The create as its own cluster sees it. */
  lemma CreateInCluster(v: Volume, disk: Disk, disk': Disk, at: Slot, p: Primary)
    returns (before: seq<Directory.Entry>, after: seq<Directory.Entry>)
    requires v.Holds(disk) && TidyCluster(v, disk, at.cluster) && Misses(v, disk, at.cluster, BaseName(p.name, None))
    requires Encodable(p) && p.attributes == ATTRIBUTE_REGULAR
    requires RecordsChanged(v, disk, disk', at, CompanionBytes(p.name, true), PrimaryBytes(p))
    requires Directory.PairFree(DirSlots(v, disk, at.cluster), at.index)
    requires forall k :: 0 <= k < at.index ==> !Directory.PairFree(DirSlots(v, disk, at.cluster), k)
    ensures TidyCluster(v, disk', at.cluster) && Listing(v, disk, at.cluster) == before + after
    ensures Listing(v, disk', at.cluster) == before + [DirectoryChange.FileEntry(p, at.index)] + after
  {
    hide CompanionBytes, PrimaryBytes, Directory.PairFree, Encodable;
    var c, companion, primary := at.cluster, CompanionBytes(p.name, true), PrimaryBytes(p);
    CommittedPairReads(p);
    ChangedSlots(v, disk, disk', at, companion, primary);
    forall n | 0 <= n < |Listing(v, disk, c)| && Listing(v, disk, c)[n].kind != Directory.Internal
      ensures Listing(v, disk, c)[n].primary.name[..8] != p.name[..8]
    {
      assert !Hit(BaseName(p.name, None), Found(c, Listing(v, disk, c)[n]));
    }
    before, after := DirectoryChange.CreateScans(DirSlots(v, disk, c), at.index, companion, primary, p);
  }

  /** A create adds one entry to a tidy directory and leaves it tidy. */
  lemma CreateKeepsTidy(v: Volume, disk: Disk, disk': Disk, cs: seq<u32>, at: Slot, p: Primary)
    requires v.Holds(disk) && Tidy(v, disk, cs) && at.cluster in cs
    requires Encodable(p) && p.attributes == ATTRIBUTE_REGULAR
    requires RecordsChanged(v, disk, disk', at, CompanionBytes(p.name, true), PrimaryBytes(p))
    requires forall i :: 0 <= i < |cs| ==> Misses(v, disk, cs[i], BaseName(p.name, None))
    requires Directory.PairFree(DirSlots(v, disk, at.cluster), at.index)
    requires forall k :: 0 <= k < at.index ==> !Directory.PairFree(DirSlots(v, disk, at.cluster), k)
    ensures Tidy(v, disk', cs) && EntryAppears(v, disk, disk', at, p)
  {
    hide CompanionBytes, PrimaryBytes, Directory.PairFree, Encodable, Directory.Scan, Directory.ZeroTail, DirSlots;
    var c := at.cluster;
    var i :| 0 <= i < |cs| && cs[i] == c;
    assert TidyCluster(v, disk, cs[i]) && Misses(v, disk, cs[i], BaseName(p.name, None));
    ChangedSlots(v, disk, disk', at, CompanionBytes(p.name, true), PrimaryBytes(p));
    var before, after := CreateInCluster(v, disk, disk', at, p);
    forall j | 0 <= j < |cs| && cs[j] != c ensures Apart(Listing(v, disk', c), Listing(v, disk, cs[j])) {
      assert Misses(v, disk, cs[j], BaseName(p.name, None));
      assert i < j ==> Apart(Listing(v, disk, c), Listing(v, disk, cs[j]));
      assert j < i ==> Apart(Listing(v, disk, cs[j]), Listing(v, disk, c));
      InsertedIsApart(v, disk, cs[j], before, DirectoryChange.FileEntry(p, at.index), after);
    }
    TidyStep(v, disk, disk', cs, c);
  }

  lemma InsertedIsApart(v: Volume, disk: Disk, d: nat, before: seq<Directory.Entry>, e: Directory.Entry,
                        after: seq<Directory.Entry>)
    requires v.Holds(disk) && Misses(v, disk, d, BaseName(e.primary.name, None))
    requires Apart(before + after, Listing(v, disk, d)) || Apart(Listing(v, disk, d), before + after)
    ensures Apart(before + [e] + after, Listing(v, disk, d))
  {
    forall x, y | x in before + [e] + after && y in Listing(v, disk, d)
                  && x.kind != Directory.Internal && y.kind != Directory.Internal
      ensures x.primary.name[..8] != y.primary.name[..8]
    {
      if x == e {
        assert !Hit(BaseName(e.primary.name, None), Found(d, y));
      } else {
        assert x in before + after;
      }
    }
  }

  /** Whatever a file's pair is replaced by, its own entry is the only one that may share the new base. */
  ghost predicate BaseIsOwn(v: Volume, disk: Disk, c: nat, f: Found, name: Name)
    requires v.Holds(disk)
  {
    Scans(v, disk, c) && forall e :: e in Listing(v, disk, c) ==> !Hit(BaseName(name, Some(f)), Found(c, e))
  }

  lemma ItemSlot(slots: seq<Record>, k: nat)
    requires k < |slots| && Directory.CellAt(slots, k).Item?
    ensures var e := Directory.CellAt(slots, k).entry;
            e.primarySlot == if e.kind == Directory.Regular then k + 1 else k
  {}

  lemma PairCell(slots: seq<Record>, k: nat)
    requires k + 1 < |slots| && Pair(slots[k], slots[k + 1]).Some?
    ensures Directory.CellAt(slots, k) ==
              Directory.Item(DirectoryChange.FileEntry(Pair(slots[k], slots[k + 1]).value, k))
    ensures Directory.CellAt(slots, k + 1).Bad?
  {
    LonePrimaryIsUnsound(slots, k + 1);
  }

  /** The first slot of a file's pair is its entry, and the second can be no entry of its own. */
  lemma PairCells(v: Volume, disk: Disk, at: Slot, p: Primary)
    requires v.Holds(disk) && v.IsPair(at) && PairAt(v, disk, at) == Some(p)
    ensures var slots := DirSlots(v, disk, at.cluster);
      && Directory.CellAt(slots, at.index) == Directory.Item(DirectoryChange.FileEntry(p, at.index))
      && Directory.CellAt(slots, at.index + 1).Bad?
      && |Directory.Cells(slots)| == |slots| && forall k :: 0 <= k < |slots| ==>
           Directory.Cells(slots)[k] == Directory.CellAt(slots, k)
  {
    hide Directory.CellAt, Pair;
    assert at == Slot(at.cluster, at.index) && Second(at) == Slot(at.cluster, at.index + 1);
    PairCell(DirSlots(v, disk, at.cluster), at.index);
  }

  /** No other entry lies where the pair's primary record lies. */
  lemma PrimarySlotsDiffer(v: Volume, disk: Disk, at: Slot, p: Primary)
    requires v.Holds(disk) && v.IsPair(at) && Scans(v, disk, at.cluster) && PairAt(v, disk, at) == Some(p)
    ensures forall x :: x in Listing(v, disk, at.cluster) && x != DirectoryChange.FileEntry(p, at.index) ==>
            x.primarySlot != at.index + 1
  {
    hide Directory.CellAt, DirSlots, PairAt, Directory.Cells;
    var slots := DirSlots(v, disk, at.cluster);
    var cells := Directory.Cells(slots);
    PairCells(v, disk, at, p);
    forall x | x in Listing(v, disk, at.cluster) && x.primarySlot == at.index + 1
      ensures x == DirectoryChange.FileEntry(p, at.index)
    {
      var n :| 0 <= n < |Listing(v, disk, at.cluster)| && Listing(v, disk, at.cluster)[n] == x;
      var k := Directory.EntryIsVisited(cells, 0, [], n);
      assert cells[k] == Directory.CellAt(slots, k);
      ItemSlot(slots, k);
    }
  }

  lemma PairInSlots(v: Volume, disk: Disk, at: Slot)
    requires v.Holds(disk) && v.IsPair(at)
    ensures var slots := DirSlots(v, disk, at.cluster);
            Pair(slots[at.index], slots[at.index + 1]) == PairAt(v, disk, at)
  {
    hide Pair;
    assert at == Slot(at.cluster, at.index) && Second(at) == Slot(at.cluster, at.index + 1);
  }

  lemma ReplaceInCluster(v: Volume, disk: Disk, disk': Disk, at: Slot, p: Primary, p': Primary)
    returns (before: seq<Directory.Entry>, after: seq<Directory.Entry>)
    requires v.Holds(disk) && TidyCluster(v, disk, at.cluster) && Encodable(p') && p'.attributes == ATTRIBUTE_REGULAR
    requires RecordsChanged(v, disk, disk', at, CompanionBytes(p'.name, true), PrimaryBytes(p'))
    requires OnTheWay(v, disk, at) && PairAt(v, disk, at) == Some(p)
    requires BaseIsOwn(v, disk, at.cluster, Found(at.cluster, DirectoryChange.FileEntry(p, at.index)), p'.name)
    ensures TidyCluster(v, disk', at.cluster)
    ensures Listing(v, disk, at.cluster) == before + [DirectoryChange.FileEntry(p, at.index)] + after
    ensures Listing(v, disk', at.cluster) == before + [DirectoryChange.FileEntry(p', at.index)] + after
  {
    hide CompanionBytes, PrimaryBytes, Encodable, PairAt, Pair, DirSlots, Directory.Scan, Directory.Cells;
    hide Directory.Visits;
    var c, companion, primary := at.cluster, CompanionBytes(p'.name, true), PrimaryBytes(p');
    var e, slots := DirectoryChange.FileEntry(p, at.index), DirSlots(v, disk, at.cluster);
    CommittedPairReads(p');
    ChangedSlots(v, disk, disk', at, companion, primary);
    PairInSlots(v, disk, at);
    PrimarySlotsDiffer(v, disk, at, p);
    forall m | 0 <= m < |Listing(v, disk, c)| && Listing(v, disk, c)[m] != e
      && Listing(v, disk, c)[m].kind != Directory.Internal
      ensures Listing(v, disk, c)[m].primary.name[..8] != p'.name[..8]
    {
      assert !Hit(BaseName(p'.name, Some(Found(c, e))), Found(c, Listing(v, disk, c)[m]));
    }
    before, after := DirectoryChange.ReplaceScans(slots, at.index, companion, primary, p');
  }

  /** A save or rename changes one entry of a tidy directory and leaves it tidy. */
  lemma ReplaceKeepsTidy(v: Volume, disk: Disk, disk': Disk, cs: seq<u32>, at: Slot, p: Primary, p': Primary)
    requires v.Holds(disk) && Tidy(v, disk, cs) && at.cluster in cs
    requires Encodable(p') && p'.attributes == ATTRIBUTE_REGULAR
    requires RecordsChanged(v, disk, disk', at, CompanionBytes(p'.name, true), PrimaryBytes(p'))
    requires v.IsPair(at) && OnTheWay(v, disk, at) && PairAt(v, disk, at) == Some(p)
    requires var f := Found(at.cluster, DirectoryChange.FileEntry(p, at.index));
             forall i :: 0 <= i < |cs| ==> BaseIsOwn(v, disk, cs[i], f, p'.name)
    ensures Tidy(v, disk', cs) && EntryChanges(v, disk, disk', at, p, p')
  {
    hide CompanionBytes, PrimaryBytes, Encodable, Directory.Scan, Directory.ZeroTail, DirSlots, PairAt, OnTheWay;
    var c, f := at.cluster, Found(at.cluster, DirectoryChange.FileEntry(p, at.index));
    var i :| 0 <= i < |cs| && cs[i] == c;
    assert TidyCluster(v, disk, cs[i]) && BaseIsOwn(v, disk, cs[i], f, p'.name);
    ChangedSlots(v, disk, disk', at, CompanionBytes(p'.name, true), PrimaryBytes(p'));
    var before, after := ReplaceInCluster(v, disk, disk', at, p, p');
    forall j | 0 <= j < |cs| && cs[j] != c ensures Apart(Listing(v, disk', c), Listing(v, disk, cs[j])) {
      assert BaseIsOwn(v, disk, cs[j], f, p'.name);
      assert i < j ==> Apart(Listing(v, disk, c), Listing(v, disk, cs[j]));
      assert j < i ==> Apart(Listing(v, disk, cs[j]), Listing(v, disk, c));
      ReplacedIsApart(v, disk, cs[j], f, before, DirectoryChange.FileEntry(p', at.index), after);
    }
    TidyStep(v, disk, disk', cs, c);
  }

  lemma ReplacedIsApart(v: Volume, disk: Disk, d: nat, f: Found, before: seq<Directory.Entry>, e: Directory.Entry,
                        after: seq<Directory.Entry>)
    requires v.Holds(disk) && f.cluster != d && BaseIsOwn(v, disk, d, f, e.primary.name)
    requires Apart(before + [f.entry] + after, Listing(v, disk, d))
             || Apart(Listing(v, disk, d), before + [f.entry] + after)
    ensures Apart(before + [e] + after, Listing(v, disk, d))
  {
    forall x, y | x in before + [e] + after && y in Listing(v, disk, d)
                  && x.kind != Directory.Internal && y.kind != Directory.Internal
      ensures x.primary.name[..8] != y.primary.name[..8]
    {
      if x == e {
        assert !Hit(BaseName(e.primary.name, Some(f)), Found(d, y));
      } else {
        assert x in before + [f.entry] + after;
      }
    }
  }

  lemma OwnInCluster(v: Volume, disk: Disk, at: Slot, p: Primary)
    requires v.Holds(disk) && v.IsPair(at) && TidyCluster(v, disk, at.cluster)
    requires OnTheWay(v, disk, at) && PairAt(v, disk, at) == Some(p)
    ensures DirectoryChange.FileEntry(p, at.index) in Listing(v, disk, at.cluster)
    ensures BaseIsOwn(v, disk, at.cluster, Found(at.cluster, DirectoryChange.FileEntry(p, at.index)), p.name)
  {
    hide Directory.Scan, Directory.Cells, Directory.Visits, DirSlots, PairAt, Pair;
    var c, e := at.cluster, DirectoryChange.FileEntry(p, at.index);
    var slots, entries := DirSlots(v, disk, c), Listing(v, disk, c);
    PairInSlots(v, disk, at);
    var before, after := DirectoryChange.ScanAtPair(slots, at.index);
    assert entries == before + [e] + after && entries[|before|] == e;
    forall x | x in entries ensures !Hit(BaseName(p.name, Some(Found(c, e))), Found(c, x)) {
      var n :| 0 <= n < |entries| && entries[n] == x;
    }
  }

  /** In a tidy directory a file's own base name is its own. */
  lemma TidyMeansOwn(v: Volume, disk: Disk, cs: seq<u32>, at: Slot, p: Primary)
    requires v.Holds(disk) && Tidy(v, disk, cs) && at.cluster in cs
    requires v.IsPair(at) && OnTheWay(v, disk, at) && PairAt(v, disk, at) == Some(p)
    ensures var f := Found(at.cluster, DirectoryChange.FileEntry(p, at.index));
            forall i :: 0 <= i < |cs| ==> BaseIsOwn(v, disk, cs[i], f, p.name)
  {
    hide Directory.Scan, DirSlots, PairAt, Pair, OnTheWay;
    var c, e := at.cluster, DirectoryChange.FileEntry(p, at.index);
    var i :| 0 <= i < |cs| && cs[i] == c;
    assert TidyCluster(v, disk, cs[i]);
    OwnInCluster(v, disk, at, p);
    forall j | 0 <= j < |cs| ensures BaseIsOwn(v, disk, cs[j], Found(c, e), p.name) {
      assert TidyCluster(v, disk, cs[j]);
      assert i < j ==> Apart(Listing(v, disk, c), Listing(v, disk, cs[j]));
      assert j < i ==> Apart(Listing(v, disk, cs[j]), Listing(v, disk, c));
    }
  }

  /** One listing loses exactly one entry. */
  ghost predicate EntryDisappears(v: Volume, disk: Disk, disk': Disk, at: Slot, p: Primary)
    requires v.Holds(disk) && v.Holds(disk')
  {
    && Scans(v, disk, at.cluster) && Scans(v, disk', at.cluster)
    && exists before, after ::
         && Listing(v, disk, at.cluster) == before + [DirectoryChange.FileEntry(p, at.index)] + after
         && Listing(v, disk', at.cluster) == before + after
  }

  lemma DeleteInCluster(v: Volume, disk: Disk, disk': Disk, at: Slot, p: Primary)
    returns (before: seq<Directory.Entry>, after: seq<Directory.Entry>)
    requires v.Holds(disk) && TidyCluster(v, disk, at.cluster)
    requires RecordsChanged(v, disk, disk', at, DELETED_RECORD, DELETED_RECORD)
    requires OnTheWay(v, disk, at) && PairAt(v, disk, at) == Some(p)
    ensures TidyCluster(v, disk', at.cluster)
    ensures Listing(v, disk, at.cluster) == before + [DirectoryChange.FileEntry(p, at.index)] + after
    ensures Listing(v, disk', at.cluster) == before + after
  {
    hide PairAt, Pair, DirSlots, Directory.Scan, Directory.Cells, Directory.Visits;
    ChangedSlots(v, disk, disk', at, DELETED_RECORD, DELETED_RECORD);
    PairInSlots(v, disk, at);
    before, after := DirectoryChange.DeleteScans(DirSlots(v, disk, at.cluster), at.index, DELETED_RECORD,
                                                 DELETED_RECORD);
  }

  /** A delete removes one entry from a tidy directory and leaves it tidy. */
  lemma DeleteKeepsTidy(v: Volume, disk: Disk, disk': Disk, cs: seq<u32>, at: Slot, p: Primary)
    requires v.Holds(disk) && Tidy(v, disk, cs) && at.cluster in cs
    requires RecordsChanged(v, disk, disk', at, DELETED_RECORD, DELETED_RECORD)
    requires v.IsPair(at) && OnTheWay(v, disk, at) && PairAt(v, disk, at) == Some(p)
    ensures Tidy(v, disk', cs) && EntryDisappears(v, disk, disk', at, p)
  {
    hide Directory.Scan, Directory.ZeroTail, DirSlots, PairAt, OnTheWay;
    var c, e := at.cluster, DirectoryChange.FileEntry(p, at.index);
    var i :| 0 <= i < |cs| && cs[i] == c;
    assert TidyCluster(v, disk, cs[i]);
    ChangedSlots(v, disk, disk', at, DELETED_RECORD, DELETED_RECORD);
    var before, after := DeleteInCluster(v, disk, disk', at, p);
    forall j | 0 <= j < |cs| && cs[j] != c ensures Apart(Listing(v, disk', c), Listing(v, disk, cs[j])) {
      assert i < j ==> Apart(Listing(v, disk, c), Listing(v, disk, cs[j]));
      assert j < i ==> Apart(Listing(v, disk, cs[j]), Listing(v, disk, c));
      assert forall x :: x in before + after ==> x in before + [e] + after;
    }
    TidyStep(v, disk, disk', cs, c);
  }

  // ----- what the operations promise of directories -------------------------------------------------

  /** Nothing has changed in any directory cluster but this one. */
  ghost predicate Elsewhere(v: Volume, disk: Disk, disk': Disk, c: nat)
    requires v.Holds(disk) && v.Holds(disk')
  {
    forall d :: d in v.dirs && d != c ==> DirSlots(v, disk', d) == DirSlots(v, disk, d)
  }

  /** A directory that does not have the changed cluster stays tidy. */
  lemma OtherStaysTidy(v: Volume, disk: Disk, disk': Disk, cs: seq<u32>, c: nat)
    requires v.Holds(disk) && v.Holds(disk') && Tidy(v, disk, cs) && Elsewhere(v, disk, disk', c) && c !in cs
    ensures Tidy(v, disk', cs)
  {
    TidyStep(v, disk, disk', cs, c);
  }

  /** A create put the new entry into this directory; if that was tidy it still is. */
  ghost predicate CreatedIn(v: Volume, fat: seq<u32>, directory: nat, disk: Disk, disk': Disk, at: Slot, p: Primary) {
    && v.Holds(disk) && v.Holds(disk') && Within(v, fat, directory, at.cluster) && Elsewhere(v, disk, disk', at.cluster)
    && forall cs :: IsChain(fat, v.g.Entries(), directory, cs) && Tidy(v, disk, cs) ==>
         Tidy(v, disk', cs) && EntryAppears(v, disk, disk', at, p)
  }

  /** A save changed nothing of any directory but the file's own entry. */
  ghost predicate SavedIn(v: Volume, disk: Disk, disk': Disk, at: Slot) {
    && v.Holds(disk) && v.Holds(disk') && v.IsPair(at) && PairAt(v, disk, at).Some? && PairAt(v, disk', at).Some?
    && Elsewhere(v, disk, disk', at.cluster)
    && forall cs :: Tidy(v, disk, cs) && at.cluster in cs ==>
         Tidy(v, disk', cs) && EntryChanges(v, disk, disk', at, PairAt(v, disk, at).value, PairAt(v, disk', at).value)
  }

  /** The same for a rename, as far as the search for the new name went. */
  ghost predicate RenamedIn(v: Volume, fat: seq<u32>, disk: Disk, disk': Disk, at: Slot) {
    && v.Holds(disk) && v.Holds(disk') && v.IsPair(at) && PairAt(v, disk, at).Some? && PairAt(v, disk', at).Some?
    && Elsewhere(v, disk, disk', at.cluster)
    && Within(v, fat, at.cluster, at.cluster)
    && forall cs :: IsChain(fat, v.g.Entries(), at.cluster, cs) && Tidy(v, disk, cs) ==>
         Tidy(v, disk', cs) && EntryChanges(v, disk, disk', at, PairAt(v, disk, at).value, PairAt(v, disk', at).value)
  }

  /** A delete removed the file's entry and nothing else. */
  ghost predicate DeletedIn(v: Volume, disk: Disk, disk': Disk, at: Slot) {
    && v.Holds(disk) && v.Holds(disk') && v.IsPair(at) && PairAt(v, disk, at).Some?
    && Elsewhere(v, disk, disk', at.cluster)
    && forall cs :: Tidy(v, disk, cs) && at.cluster in cs ==>
         Tidy(v, disk', cs) && EntryDisappears(v, disk, disk', at, PairAt(v, disk, at).value)
  }

  lemma CreateListed(v: Volume, fat: seq<u32>, directory: nat, clusters: seq<u32>, disk: Disk, disk': Disk, at: Slot,
                     p: Primary)
    requires v.Holds(disk) && |fat| == v.g.fatSectors * ENTRIES_PER_SECTOR && ClusterInRange(v.g, directory)
    requires Encodable(p) && p.attributes == ATTRIBUTE_REGULAR
    requires RecordsChanged(v, disk, disk', at, CompanionBytes(p.name, true), PrimaryBytes(p))
    requires IsChain(fat, v.g.Entries(), directory, clusters) && at.cluster in clusters
    requires forall i :: 0 <= i < |clusters| ==> Misses(v, disk, clusters[i], BaseName(p.name, None))
    requires Directory.PairFree(DirSlots(v, disk, at.cluster), at.index)
    requires forall k :: 0 <= k < at.index ==> !Directory.PairFree(DirSlots(v, disk, at.cluster), k)
    ensures CreatedIn(v, fat, directory, disk, disk', at, p)
  {
    hide Tidy, EntryAppears, CompanionBytes, PrimaryBytes, Directory.PairFree, Misses;
    ChangedSlots(v, disk, disk', at, CompanionBytes(p.name, true), PrimaryBytes(p));
    forall cs | IsChain(fat, v.g.Entries(), directory, cs) && Tidy(v, disk, cs)
      ensures Tidy(v, disk', cs) && EntryAppears(v, disk, disk', at, p)
    {
      ChainUnique(fat, v.g.Entries(), directory, cs, clusters);
      CreateKeepsTidy(v, disk, disk', cs, at, p);
    }
  }

  lemma SaveListed(v: Volume, disk: Disk, disk': Disk, at: Slot, p: Primary, p': Primary)
    requires v.Holds(disk) && Encodable(p') && p'.attributes == ATTRIBUTE_REGULAR && p'.name == p.name
    requires RecordsChanged(v, disk, disk', at, CompanionBytes(p'.name, true), PrimaryBytes(p'))
    requires v.IsPair(at) && OnTheWay(v, disk, at) && PairAt(v, disk, at) == Some(p)
    ensures SavedIn(v, disk, disk', at)
  {
    hide Tidy, EntryChanges, CompanionBytes, PrimaryBytes, OnTheWay, BaseIsOwn;
    ChangedSlots(v, disk, disk', at, CompanionBytes(p'.name, true), PrimaryBytes(p'));
    CommittedPairReads(p');
    forall cs | Tidy(v, disk, cs) && at.cluster in cs
      ensures Tidy(v, disk', cs) && EntryChanges(v, disk, disk', at, p, p')
    {
      TidyMeansOwn(v, disk, cs, at, p);
      ReplaceKeepsTidy(v, disk, disk', cs, at, p, p');
    }
  }

  lemma PairReads(v: Volume, disk: Disk, at: Slot, p: Primary)
    requires v.Holds(disk) && v.IsPair(at) && Encodable(p) && p.attributes == ATTRIBUTE_REGULAR
    requires RecordAt(disk, v.g, at) == CompanionBytes(p.name, true)
             && RecordAt(disk, v.g, Second(at)) == PrimaryBytes(p)
    ensures PairAt(v, disk, at) == Some(p)
  {
    CommittedPairReads(p);
  }

  lemma RenameListed(v: Volume, fat: seq<u32>, clusters: seq<u32>, disk: Disk, disk': Disk, at: Slot, f: Found,
                     p': Primary)
    requires v.Holds(disk) && Encodable(p') && p'.attributes == ATTRIBUTE_REGULAR
    requires |fat| == v.g.fatSectors * ENTRIES_PER_SECTOR && at == PairSlot(f) && f.entry.primarySlot == at.index + 1
    requires RecordsChanged(v, disk, disk', at, CompanionBytes(p'.name, true), PrimaryBytes(p'))
    requires v.IsPair(at) && OnTheWay(v, disk, at) && PairAt(v, disk, at) == Some(f.entry.primary)
    requires IsChain(fat, v.g.Entries(), at.cluster, clusters)
    requires forall i :: 0 <= i < |clusters| ==> Misses(v, disk, clusters[i], BaseName(p'.name, Some(f)))
    ensures RenamedIn(v, fat, disk, disk', at)
  {
    hide Tidy, EntryChanges, CompanionBytes, PrimaryBytes, OnTheWay, DirSlots, Directory.Scan, PairAt, Pair, Encodable;
    PairReads(v, disk', at, p');
    ChangedSlots(v, disk, disk', at, CompanionBytes(p'.name, true), PrimaryBytes(p'));
    assert clusters[0] == at.cluster;
    var e := Found(at.cluster, DirectoryChange.FileEntry(f.entry.primary, at.index));
    forall i | 0 <= i < |clusters| ensures BaseIsOwn(v, disk, clusters[i], e, p'.name) {
      forall x | Scans(v, disk, clusters[i]) && x in Listing(v, disk, clusters[i])
        ensures !Hit(BaseName(p'.name, Some(e)), Found(clusters[i], x))
      {
        assert !Hit(BaseName(p'.name, Some(f)), Found(clusters[i], x));
      }
    }
    forall cs | IsChain(fat, v.g.Entries(), at.cluster, cs) && Tidy(v, disk, cs)
      ensures Tidy(v, disk', cs) && EntryChanges(v, disk, disk', at, f.entry.primary, p')
    {
      ChainUnique(fat, v.g.Entries(), at.cluster, cs, clusters);
      assert cs[0] == at.cluster;
      ReplaceKeepsTidy(v, disk, disk', cs, at, f.entry.primary, p');
    }
  }

  lemma DeleteListed(v: Volume, disk: Disk, disk': Disk, at: Slot, p: Primary)
    requires v.Holds(disk) && RecordsChanged(v, disk, disk', at, DELETED_RECORD, DELETED_RECORD)
    requires v.IsPair(at) && OnTheWay(v, disk, at) && PairAt(v, disk, at) == Some(p)
    ensures DeletedIn(v, disk, disk', at)
  {
    hide Tidy, EntryDisappears, OnTheWay;
    ChangedSlots(v, disk, disk', at, DELETED_RECORD, DELETED_RECORD);
    forall cs | Tidy(v, disk, cs) && at.cluster in cs
      ensures Tidy(v, disk', cs) && EntryDisappears(v, disk, disk', at, p)
    {
      DeleteKeepsTidy(v, disk, disk', cs, at, p);
    }
  }
}
