/**
  One directory cluster: the slot scan, the search for a free slot pair, and what creating, renaming
  and deleting a file does to a later scan.
*/
module Directory {
  import opened Bytes
  import opened Status
  import opened Records
  import FatChain

  datatype Kind = Regular | Subdirectory | Internal

  /** `companionSlot` is None for entries that are a single record. */
  datatype Entry = Entry(primary: Primary, primarySlot: nat, companionSlot: Option<nat>, kind: Kind)

  const DOT: Byte := 0x2e

  predicate IsInternalName(name: Name) {
    && name[0] == DOT
    && (if name[1] == DOT then AllSpaces(name[2..]) else AllSpaces(name[1..]))
  }

  predicate AllSpaces(bytes: seq<Byte>) {
    forall i :: 0 <= i < |bytes| ==> bytes[i] == SPACE
  }

  function DecodeInternal(r: Record): Result<Primary> {
    var cluster := ReadLe16(r[20..22]) as int * 0x1_0000 + ReadLe16(r[26..28]);
    if IsInternalName(r[..11]) && r[11] == ATTRIBUTE_DIRECTORY && AllZero(r[12..20]) && AllZero(r[22..26])
       && AllZero(r[28..32]) && 2 <= cluster <= FatChain.MAX_DATA_CLUSTER
    then Success(Primary(r[..11], r[11], cluster, 0))
    else Failure(Protocol)
  }

  /** The entry that starts at slot `i`, if the records there are sound. */
  function EntryAt(slots: seq<Record>, i: nat): (e: Result<Entry>)
    requires i < |slots|
    ensures e.Success? ==> e.value.primarySlot < |slots|
  {
    if slots[i][0] == COMPANION_TYPE then
      if i + 1 < |slots| && ValidatePair(slots[i], slots[i + 1]) == Ok
      then Success(Entry(DecodePrimary(slots[i + 1]).value, i + 1, Some(i), Regular))
      else Failure(Corrupt)
    else if IsInternalName(slots[i][..11]) then
      match DecodeInternal(slots[i])
      case Success(p) => Success(Entry(p, i, None, Internal))
      case Failure(error) => Failure(error)
    else
      match DecodePrimary(slots[i])
      case Success(p) =>
        if p.attributes == ATTRIBUTE_DIRECTORY then Success(Entry(p, i, None, Subdirectory))
        else Failure(Corrupt)
      case Failure(error) => Failure(error)
  }

  /** One slot as the scan sees it: the end mark, a deleted slot, an unsound record or an entry. */
  datatype Cell = End | Hole | Bad(error: Status) | Item(entry: Entry)

  function CellAt(slots: seq<Record>, i: nat): Cell
    requires i < |slots|
  {
    if slots[i][0] == 0 then End
    else if slots[i][0] == DELETED then Hole
    else
      match EntryAt(slots, i)
      case Success(e) => Item(e)
      case Failure(error) => Bad(error)
  }

  function Cells(slots: seq<Record>): (cells: seq<Cell>)
    ensures |cells| == |slots| && forall i :: 0 <= i < |slots| ==> cells[i] == CellAt(slots, i)
  {
    seq(|slots|, i requires 0 <= i < |slots| => CellAt(slots, i))
  }

  /** A file's entry covers two slots. */
  function After(i: nat, e: Entry): nat {
    if e.kind == Regular then i + 2 else i + 1
  }

  predicate Named(entries: seq<Entry>, name: Name) {
    exists k :: 0 <= k < |entries| && entries[k].kind != Internal && entries[k].primary.name == name
  }

  /** The scan as the code runs it: entries found so far are `found`, the next slot is `i`. */
  function ScanFrom(cells: seq<Cell>, i: nat, found: seq<Entry>): Result<seq<Entry>>
    decreases |cells| - i
  {
    if i >= |cells| then Success(found)
    else
      match cells[i]
      case End => Success(found)
      case Hole => ScanFrom(cells, i + 1, found)
      case Bad(error) => Failure(error)
      case Item(e) =>
        if Named(found, e.primary.name) then Failure(AlreadyExists)
        else ScanFrom(cells, After(i, e), found + [e])
  }

  function Scan(slots: seq<Record>): Result<seq<Entry>> {
    ScanFrom(Cells(slots), 0, [])
  }

  method DuplicateName(entries: seq<Entry>, name: Name) returns (duplicate: bool)
    ensures duplicate <==> Named(entries, name)
  {
    for index := 0 to |entries|
      invariant !Named(entries[..index], name)
    {
      if entries[index].kind != Internal && entries[index].primary.name == name {
        return true;
      }
      assert entries[..index + 1] == entries[..index] + [entries[index]];
    }
    assert entries[..|entries|] == entries;
    return false;
  }

  method ComputeScan(slots: seq<Record>, capacity: nat) returns (status: Status, entries: seq<Entry>)
    requires |slots| <= capacity
    ensures match Scan(slots)
            case Success(all) => status == Ok && entries == all
            case Failure(error) => status == error != Ok
  {
    hide CellAt, Named;
    entries := [];
    var slot := 0;
    var cells := Cells(slots);
    CellsSpan(slots);
    while slot < |slots| && cells[slot] != End
      invariant slot <= |slots| && |entries| <= slot
      invariant ScanFrom(cells, slot, entries) == ScanFrom(cells, 0, [])
    {
      match cells[slot] {
        case Hole =>
          slot := slot + 1;
        case Bad(error) =>
          BadIsError(slots, slot);
          return error, entries;
        case Item(entry) =>
          var duplicate := DuplicateName(entries, entry.primary.name);
          if duplicate {
            return AlreadyExists, entries;
          }
          if |entries| == capacity {
            assert false; // there are no more entries than slots
          }
          entries := entries + [entry];
          slot := After(slot, entry);
      }
    }
    status := Ok;
  }

  lemma BadIsError(slots: seq<Record>, i: nat)
    requires i < |slots|
    ensures CellAt(slots, i).Bad? ==> CellAt(slots, i).error != Ok
  {}

  lemma CellsSpan(slots: seq<Record>)
    ensures forall i :: 0 <= i < |slots| && Cells(slots)[i].Item? ==> After(i, Cells(slots)[i].entry) <= |slots|
  {
    forall i | 0 <= i < |slots| && Cells(slots)[i].Item? ensures After(i, Cells(slots)[i].entry) <= |slots| {
      assert Cells(slots)[i] == CellAt(slots, i);
    }
  }

  /** How a scan fails: an unsound record, or a name that comes twice. */
  lemma ScanErrors(slots: seq<Record>)
    ensures Scan(slots).Failure? ==> Scan(slots).error in {Corrupt, Protocol, AlreadyExists}
  {
    forall i | 0 <= i < |slots| && Cells(slots)[i].Bad? ensures Cells(slots)[i].error in {Corrupt, Protocol} {
      assert Cells(slots)[i] == CellAt(slots, i);
    }
    ScanFromErrors(Cells(slots), 0, []);
  }

  lemma {:induction false} ScanFromErrors(cells: seq<Cell>, i: nat, found: seq<Entry>)
    requires forall k :: 0 <= k < |cells| && cells[k].Bad? ==> cells[k].error in {Corrupt, Protocol}
    ensures ScanFrom(cells, i, found).Failure? ==>
            ScanFrom(cells, i, found).error in {Corrupt, Protocol, AlreadyExists}
    decreases |cells| - i
  {
    if i < |cells| {
      match cells[i]
      case Hole => ScanFromErrors(cells, i + 1, found);
      case Item(e) =>
        if !Named(found, e.primary.name) {
          ScanFromErrors(cells, After(i, e), found + [e]);
        }
      case _ =>
    }
  }

  // ----- finding a place for a new pair ---------------------------------------------------------

  /** The slots after the first never-used slot were never used either. */
  ghost predicate ZeroTail(slots: seq<Record>) {
    forall i, j :: 0 <= i < j < |slots| && slots[i][0] == 0 ==> slots[j][0] == 0
  }

  predicate AfterEnd(slots: seq<Record>, k: nat) {
    exists j :: 0 <= j <= k && j < |slots| && slots[j][0] == 0
  }

  predicate Unused(r: Record) {
    r[0] == 0 || r[0] == DELETED
  }

  predicate PairFree(slots: seq<Record>, k: nat)
    requires k + 1 < |slots|
  {
    && (AfterEnd(slots, k) || Unused(slots[k]))
    && (AfterEnd(slots, k) || Unused(slots[k + 1]))
  }

  method FindPairSlots(slots: seq<Record>) returns (status: Status, companionSlot: nat)
    ensures status == InvalidArgument <==> |slots| < 2
    ensures status in {Ok, InvalidArgument, NoSpace}
    ensures status == Ok ==>
            && companionSlot + 1 < |slots| && PairFree(slots, companionSlot)
            && forall k :: 0 <= k < companionSlot ==> !PairFree(slots, k)
    ensures status == NoSpace ==> forall k :: 0 <= k && k + 1 < |slots| ==> !PairFree(slots, k)
  {
    if |slots| < 2 {
      return InvalidArgument, 0;
    }
    var afterEnd := false;
    for slot := 0 to |slots| - 1
      invariant afterEnd <==> slot > 0 && AfterEnd(slots, slot - 1)
      invariant forall k :: 0 <= k < slot ==> !PairFree(slots, k)
    {
      if slots[slot][0] == 0 {
        afterEnd := true;
      }
      assert afterEnd <==> AfterEnd(slots, slot);
      if (afterEnd || Unused(slots[slot])) && (afterEnd || slots[slot + 1][0] == 0 || Unused(slots[slot + 1])) {
        return Ok, slot;
      }
    }
    return NoSpace, 0;
  }

  // ----- what a scan visits -----------------------------------------------------------------------

  /** What every row of cells read from records satisfies. */
  ghost predicate Sound(cells: seq<Cell>) {
    forall i :: 0 <= i < |cells| && cells[i].Item? ==> SoundAt(cells, i)
  }

  ghost predicate SoundAt(cells: seq<Cell>, i: nat)
    requires i < |cells| && cells[i].Item?
  {
    && (cells[i].entry.kind == Internal <==> IsInternalName(cells[i].entry.primary.name))
    && (cells[i].entry.kind == Regular ==>
          i + 1 < |cells| && !cells[i + 1].End? && !cells[i + 1].Hole? && cells[i].entry.primarySlot == i + 1)
  }

  lemma CellsAreSound(slots: seq<Record>)
    ensures Sound(Cells(slots))
  {
    hide CellAt;
    var cells := Cells(slots);
    forall i | 0 <= i < |cells| && cells[i].Item?
      ensures SoundAt(cells, i)
    {
      assert cells[i] == CellAt(slots, i);
      EntryNames(slots, i);
      if cells[i].entry.kind == Regular {
        EntryFits(slots, i);
        assert cells[i + 1] == CellAt(slots, i + 1);
      }
    }
  }

  lemma EntryNames(slots: seq<Record>, i: nat)
    requires i < |slots| && CellAt(slots, i).Item?
    ensures CellAt(slots, i).entry.kind == Internal <==> IsInternalName(CellAt(slots, i).entry.primary.name)
  {
    if CellAt(slots, i).entry.kind != Internal {
      var name := CellAt(slots, i).entry.primary.name;
      assert ValidStoredName(name) && name[..8][0] == name[0];
    }
  }

  /** A file's two records: the second one is no entry of its own. */
  lemma EntryFits(slots: seq<Record>, i: nat)
    requires i < |slots| && CellAt(slots, i).Item? && CellAt(slots, i).entry.kind == Regular
    ensures i + 1 < |slots| && CellAt(slots, i + 1).Bad? && CellAt(slots, i).entry.primarySlot == i + 1
  {
    var name := slots[i + 1][..11];
    assert ValidStoredName(name) && name[..8][0] == name[0] == slots[i + 1][0];
  }

  /** A scan that stands at slot `i` gets to slot `k` without meeting an end or an unsound record. */
  ghost predicate Visits(cells: seq<Cell>, i: nat, k: nat)
    decreases |cells| - i
  {
    i == k
    || (i < k && i < |cells|
        && match cells[i]
           case End => false
           case Hole => Visits(cells, i + 1, k)
           case Bad(_) => false
           case Item(e) => Visits(cells, After(i, e), k))
  }

  /** The entries a scan collects between slot `i` and slot `k`. */
  ghost function Collect(cells: seq<Cell>, i: nat, k: nat): seq<Entry>
    requires Visits(cells, i, k)
    decreases |cells| - i
  {
    if i == k then []
    else
      match cells[i]
      case Hole => Collect(cells, i + 1, k)
      case Item(e) => [e] + Collect(cells, After(i, e), k)
  }

  lemma VisitsForward(cells: seq<Cell>, i: nat, k: nat)
    requires Visits(cells, i, k)
    ensures i <= k
  {}

  /** Visits and Collect look at nothing from slot `k` on. */
  lemma {:induction false} WayFrame(cells: seq<Cell>, other: seq<Cell>, i: nat, k: nat)
    requires Visits(cells, i, k) && |other| == |cells| && k <= |cells|
    requires forall j :: i <= j < k && Visits(cells, j, k) ==> other[j] == cells[j]
    ensures Visits(other, i, k) && Collect(other, i, k) == Collect(cells, i, k)
    decreases |cells| - i
  {
    if i < k {
      match cells[i] {
        case Hole => WayFrame(cells, other, i + 1, k);
        case Item(e) =>
          VisitsForward(cells, After(i, e), k);
          WayFrame(cells, other, After(i, e), k);
      }
    }
  }

  /** An unsound record on the way makes the whole scan fail. */
  lemma {:induction false} UnsoundFails(cells: seq<Cell>, i: nat, k: nat, found: seq<Entry>)
    requires Visits(cells, i, k) && k < |cells| && cells[k].Bad?
    ensures ScanFrom(cells, i, found).Failure?
    decreases |cells| - i
  {
    if i < k {
      match cells[i] {
        case Hole => UnsoundFails(cells, i + 1, k, found);
        case Item(e) =>
          if !Named(found, e.primary.name) {
            UnsoundFails(cells, After(i, e), k, found + [e]);
          }
      }
    }
  }

  /** Every entry a scan reports starts at a slot the scan visits. */
  lemma {:induction false} EntryIsVisited(cells: seq<Cell>, i: nat, found: seq<Entry>, n: nat) returns (k: nat)
    requires ScanFrom(cells, i, found).Success? && |found| <= n < |ScanFrom(cells, i, found).value|
    ensures Visits(cells, i, k) && k < |cells| && cells[k] == Item(ScanFrom(cells, i, found).value[n])
    decreases |cells| - i
  {
    match cells[i] {
      case Hole =>
        k := EntryIsVisited(cells, i + 1, found, n);
        VisitsForward(cells, i + 1, k);
      case Item(e) =>
        if n == |found| {
          ScanExtends(cells, After(i, e), found + [e]);
          k := i;
        } else {
          k := EntryIsVisited(cells, After(i, e), found + [e], n);
          VisitsForward(cells, After(i, e), k);
        }
    }
  }

  lemma {:induction false} ScanExtends(cells: seq<Cell>, i: nat, found: seq<Entry>)
    requires ScanFrom(cells, i, found).Success?
    ensures found <= ScanFrom(cells, i, found).value
    decreases |cells| - i
  {
    if i < |cells| {
      match cells[i] {
        case End =>
        case Hole => ScanExtends(cells, i + 1, found);
        case Item(e) => ScanExtends(cells, After(i, e), found + [e]);
      }
    }
  }

  /** A free slot that no never-used slot precedes is visited by every scan that succeeds. */
  lemma {:induction false} FreeSlotIsVisited(cells: seq<Cell>, i: nat, k: nat, found: seq<Entry>)
    requires Sound(cells) && ScanFrom(cells, i, found).Success? && i <= k < |cells|
    requires cells[k].End? || cells[k].Hole?
    requires forall j :: i <= j < k ==> !cells[j].End?
    ensures Visits(cells, i, k)
    decreases |cells| - i
  {
    if i < k {
      match cells[i] {
        case Hole => FreeSlotIsVisited(cells, i + 1, k, found);
        case Item(e) => FreeSlotIsVisited(cells, After(i, e), k, found + [e]);
      }
    }
  }

  // ----- the scan after a change ------------------------------------------------------------------

  /** No named entry repeats the name of another. */
  ghost predicate NamesDistinct(entries: seq<Entry>) {
    forall a, b :: 0 <= a < b < |entries| && entries[a].kind != Internal && entries[b].kind != Internal ==>
      entries[a].primary.name != entries[b].primary.name
  }

  /** The stronger promise the file service keeps: no two named entries share the 8-byte base. */
  ghost predicate BasesDistinct(entries: seq<Entry>) {
    forall a, b :: 0 <= a < b < |entries| && entries[a].kind != Internal && entries[b].kind != Internal ==>
      entries[a].primary.name[..8] != entries[b].primary.name[..8]
  }

  /** What a scan reports from slot `i` on, duplicates not looked for. */
  ghost function Walk(cells: seq<Cell>, i: nat): Result<seq<Entry>>
    decreases |cells| - i
  {
    if i >= |cells| then Success([])
    else
      match cells[i]
      case End => Success([])
      case Hole => Walk(cells, i + 1)
      case Bad(error) => Failure(error)
      case Item(e) =>
        match Walk(cells, After(i, e))
        case Failure(error) => Failure(error)
        case Success(rest) => Success([e] + rest)
  }

  lemma {:induction false} ScanIsWalk(cells: seq<Cell>, i: nat, found: seq<Entry>)
    requires ScanFrom(cells, i, found).Success?
    ensures Walk(cells, i).Success? && ScanFrom(cells, i, found).value == found + Walk(cells, i).value
    decreases |cells| - i
  {
    if i >= |cells| {
      assert found + [] == found;
    } else {
      match cells[i] {
        case End => assert found + [] == found;
        case Hole => ScanIsWalk(cells, i + 1, found);
        case Item(e) =>
          ScanIsWalk(cells, After(i, e), found + [e]);
          assert found + [e] + Walk(cells, After(i, e)).value == found + Walk(cells, i).value;
      }
    }
  }

  ghost predicate Kinds(entries: seq<Entry>) {
    forall k :: 0 <= k < |entries| ==>
      (entries[k].kind == Internal <==> IsInternalName(entries[k].primary.name))
  }

  lemma {:induction false} WalkIsScan(cells: seq<Cell>, i: nat, found: seq<Entry>)
    requires Sound(cells) && Walk(cells, i).Success? && Kinds(found)
    requires NamesDistinct(found + Walk(cells, i).value)
    ensures ScanFrom(cells, i, found) == Success(found + Walk(cells, i).value)
    decreases |cells| - i
  {
    if i >= |cells| {
      assert found + [] == found;
    } else {
      match cells[i] {
        case End => assert found + [] == found;
        case Hole => WalkIsScan(cells, i + 1, found);
        case Item(e) =>
          var rest := Walk(cells, After(i, e)).value;
          assert found + [e] + rest == found + Walk(cells, i).value;
          NewNameIsNew(found, e, rest);
          WalkIsScan(cells, After(i, e), found + [e]);
      }
    }
  }

  lemma NewNameIsNew(found: seq<Entry>, e: Entry, rest: seq<Entry>)
    requires NamesDistinct(found + [e] + rest) && Kinds(found + [e])
    ensures !Named(found, e.primary.name)
  {
    var all := found + [e] + rest;
    assert all[|found|] == e && (found + [e])[|found|] == e;
    forall k | 0 <= k < |found| && found[k].kind != Internal ensures found[k].primary.name != e.primary.name {
      assert all[k] == found[k] && (found + [e])[k] == found[k];
    }
  }

  lemma BasesImplyNames(entries: seq<Entry>)
    requires BasesDistinct(entries)
    ensures NamesDistinct(entries)
  {}

  lemma {:induction false} ScanNames(cells: seq<Cell>, i: nat, found: seq<Entry>)
    requires ScanFrom(cells, i, found).Success? && NamesDistinct(found)
    ensures NamesDistinct(ScanFrom(cells, i, found).value)
    decreases |cells| - i
  {
    if i < |cells| {
      match cells[i] {
        case End =>
        case Hole => ScanNames(cells, i + 1, found);
        case Item(e) =>
          assert !Named(found, e.primary.name);
          ScanNames(cells, After(i, e), found + [e]);
      }
    }
  }

  /** A scan succeeds exactly when every record on the way is sound and no name comes twice. */
  lemma ScanExact(slots: seq<Record>)
    ensures Scan(slots).Success? <==> Walk(Cells(slots), 0).Success? && NamesDistinct(Walk(Cells(slots), 0).value)
    ensures Scan(slots).Success? ==> Scan(slots) == Walk(Cells(slots), 0)
  {
    hide Cells;
    var cells := Cells(slots);
    CellsAreSound(slots);
    if Scan(slots).Success? {
      ScanIsWalk(cells, 0, []);
      ScanNames(cells, 0, []);
      assert [] + Walk(cells, 0).value == Walk(cells, 0).value;
    }
    if Walk(cells, 0).Success? && NamesDistinct(Walk(cells, 0).value) {
      assert [] + Walk(cells, 0).value == Walk(cells, 0).value;
      WalkIsScan(cells, 0, []);
    }
  }

  /** A walk splits at every slot it visits. */
  lemma {:induction false} WalkSplits(cells: seq<Cell>, i: nat, k: nat)
    requires Visits(cells, i, k) && (Walk(cells, i).Success? || Walk(cells, k).Success?)
    ensures Walk(cells, i).Success? && Walk(cells, k).Success?
    ensures Walk(cells, i).value == Collect(cells, i, k) + Walk(cells, k).value
    decreases |cells| - i
  {
    if i < k {
      match cells[i] {
        case Hole => WalkSplits(cells, i + 1, k);
        case Item(e) =>
          WalkSplits(cells, After(i, e), k);
          var way, rest := Collect(cells, After(i, e), k), Walk(cells, k).value;
          assert [e] + (way + rest) == ([e] + way) + rest;
      }
    }
  }

  lemma {:induction false} WalkFrame(cells: seq<Cell>, other: seq<Cell>, i: nat)
    requires |other| == |cells| && forall j :: i <= j < |cells| ==> other[j] == cells[j]
    ensures Walk(other, i) == Walk(cells, i)
    decreases |cells| - i
  {
    if i < |cells| {
      match cells[i] {
        case End =>
        case Hole => WalkFrame(cells, other, i + 1);
        case Bad(_) =>
        case Item(e) => WalkFrame(cells, other, After(i, e));
      }
    }
  }
}
