/**
  The extension registry: a hint where each extension was seen last.  Whatever state it is in, a lookup
  answers from the directory entries alone.
*/
module Registry {
  import opened Bytes
  import opened Collections
  import opened Status
  import opened Records
  import opened RegistryRecord

  datatype Health = Disabled | Healthy | Stale | Full | CorruptRegistry | Rebuilding

  /** A file as a walk over the directories finds it. */
  datatype Source = Source(companion: Record, primary: Record, cluster: u32, slot: u16)

  function SourceExtension(e: Source): (x: Result<seq<Byte>>)
    ensures x.Failure? ==> x.error.Failed()
  {
    if ValidatePair(e.companion, e.primary) != Ok then Failure(ValidatePair(e.companion, e.primary))
    else
      match DecodePrimary(e.primary)
      case Failure(error) => Failure(error)
      case Success(p) => Success(Extension(p.name))
  }

  /** An extension taken from a valid name is one that a record can hold. */
  lemma {:induction false} ExtensionIsValid(e: Source)
    ensures SourceExtension(e).Success? ==> ValidExtension(SourceExtension(e).value)
  {
    if SourceExtension(e).Success? {
      var name := DecodePrimary(e.primary).value.name;
      TrimmedIsSupported(name[8..]);
    }
  }

  lemma {:induction false} TrimmedIsSupported(field: seq<Byte>)
    requires Padded(field)
    ensures forall i :: 0 <= i < TrimmedLength(field) ==> SupportedNameByte(field[i])
  {
    if field != [] && field[|field| - 1] == SPACE {
      assert forall i :: 0 <= i < |field| - 1 ==> field[..|field| - 1][i] == field[i];
      TrimmedIsSupported(field[..|field| - 1]);
    } else if field != [] {
      assert forall j :: 0 <= j < |field| - 1 ==> field[j] != SPACE;
    }
  }

  // ----- the answer -------------------------------------------------------------------------------

  /** Going through the entries: an unsound one ends the search, and so does a full result. */
  function Filtered(entries: seq<Source>, extension: seq<Byte>, capacity: nat, i: nat, found: seq<nat>): (Status,
                                                                                                          seq<nat>)
    requires i <= |entries|
    decreases |entries| - i
  {
    if i == |entries| then (Ok, found)
    else
      match SourceExtension(entries[i])
      case Failure(error) => (error, found)
      case Success(x) =>
        if x != extension then Filtered(entries, extension, capacity, i + 1, found)
        else if |found| == capacity then (NoSpace, found)
        else Filtered(entries, extension, capacity, i + 1, found + [i])
  }

  predicate Matches(e: Source, extension: seq<Byte>) {
    SourceExtension(e) == Success(extension)
  }

  ghost predicate Increasing(s: seq<nat>) {
    forall a, b :: 0 <= a < b < |s| ==> s[a] < s[b]
  }

  /** A complete answer is every matching entry, in order, and nothing else. */
  lemma {:induction false} FilteredIsFilter(entries: seq<Source>, extension: seq<Byte>, capacity: nat, i: nat,
                                            found: seq<nat>)
    requires i <= |entries| && Increasing(found)
    requires forall k :: k in found <==> 0 <= k < i && Matches(entries[k], extension)
    requires Filtered(entries, extension, capacity, i, found).0 == Ok
    ensures var all := Filtered(entries, extension, capacity, i, found).1;
      && Increasing(all) && forall k :: k in all <==> 0 <= k < |entries| && Matches(entries[k], extension)
    decreases |entries| - i
  {
    hide SourceExtension;
    if i < |entries| {
      if Matches(entries[i], extension) {
        Appended(found, i);
        FilteredIsFilter(entries, extension, capacity, i + 1, found + [i]);
      } else {
        FilteredIsFilter(entries, extension, capacity, i + 1, found);
      }
    }
  }

  /** The matching entries before `i`, in order. */
  ghost predicate MatchesBefore(entries: seq<Source>, extension: seq<Byte>, i: nat, found: seq<nat>)
    requires i <= |entries|
  {
    Increasing(found) && forall k :: k in found <==> 0 <= k < i && Matches(entries[k], extension)
  }

  /** A search is complete exactly when every entry is sound and the matches fit. */
  lemma {:induction false} FilteredAnswers(entries: seq<Source>, extension: seq<Byte>, capacity: nat, i: nat,
                                           found: seq<nat>, all: seq<nat>)
    requires i <= |entries| && MatchesBefore(entries, extension, i, found) && |found| <= capacity
    requires MatchesBefore(entries, extension, |entries|, all) && found <= all
    ensures Filtered(entries, extension, capacity, i, found).0 == Ok <==>
            (forall k :: i <= k < |entries| ==> SourceExtension(entries[k]).Success?) && |all| <= capacity
    decreases |entries| - i
  {
    hide SourceExtension;
    if i == |entries| {
      SameMatches(entries, extension, found, all);
    } else if SourceExtension(entries[i]).Success? {
      if Matches(entries[i], extension) {
        Appended(found, i);
        NextMatch(entries, extension, i, found, all);
        if |found| < capacity {
          FilteredAnswers(entries, extension, capacity, i + 1, found + [i], all);
        }
      } else {
        FilteredAnswers(entries, extension, capacity, i + 1, found, all);
      }
    }
  }

  lemma SameMatches(entries: seq<Source>, extension: seq<Byte>, found: seq<nat>, all: seq<nat>)
    requires MatchesBefore(entries, extension, |entries|, found) && MatchesBefore(entries, extension, |entries|, all)
    requires found <= all
    ensures found == all
  {
    hide Matches;
    if |found| < |all| {
      assert all[|found|] in all;
      NextIsNew(found, all);
    }
  }

  lemma NextIsNew(found: seq<nat>, all: seq<nat>)
    requires Increasing(all) && found <= all && |found| < |all|
    ensures all[|found|] !in found
  {
    assert forall j :: 0 <= j < |found| ==> found[j] == all[j] < all[|found|];
  }

  /** The next match comes next in the list of all matches. */
  lemma NextMatch(entries: seq<Source>, extension: seq<Byte>, i: nat, found: seq<nat>, all: seq<nat>)
    requires i < |entries| && Matches(entries[i], extension) && MatchesBefore(entries, extension, i, found)
    requires MatchesBefore(entries, extension, |entries|, all) && found <= all
    ensures found + [i] <= all
  {
    hide Matches;
    assert i in all && i !in found;
    var p :| 0 <= p < |all| && all[p] == i;
    assert forall j :: 0 <= j < |found| ==> found[j] in found && found[j] == all[j];
    NextIsNew(found, all);
    assert all[|found|] in all && all[|found|] >= i;
    assert p == |found|;
  }

  lemma Appended(s: seq<nat>, next: nat)
    requires Increasing(s) && forall k :: k in s ==> k < next
    ensures Increasing(s + [next]) && forall k :: k in s + [next] <==> k in s || k == next
  {
    forall a, b | 0 <= a < b < |s| + 1 ensures (s + [next])[a] < (s + [next])[b] {
      assert s[a] in s;
    }
  }

  // ----- the records ------------------------------------------------------------------------------

  predicate Readable(r: Record) {
    EmptySlot(r) || Decode(r).Success?
  }

  predicate Active(r: Record, extension: seq<Byte>) {
    !EmptySlot(r) && Decode(r).Success? && Decode(r).value.active && Decode(r).value.extension == extension
  }

  /** All records can be read, and at most one is active for the extension. */
  ghost predicate Consistent(records: seq<Record>, extension: seq<Byte>) {
    && (forall i :: 0 <= i < |records| ==> Readable(records[i]))
    && (forall i, j :: 0 <= i < j < |records| ==> !(Active(records[i], extension) && Active(records[j], extension)))
  }

  /** The hint points at the last entry with its extension. */
  ghost predicate PointsAtLast(h: Hint, entries: seq<Source>) {
    exists k :: 0 <= k < |entries| && Matches(entries[k], h.extension) && LastFor(entries, k, h.extension)
                && h.cluster == entries[k].cluster && h.slot == entries[k].slot
  }

  predicate LastFor(entries: seq<Source>, k: int, extension: seq<Byte>) {
    forall j :: k < j < |entries| && 0 <= j ==> !Matches(entries[j], extension)
  }

  /** Exactly one active record per distinct extension, in the first `count` slots, each up to date. */
  ghost predicate Indexes(records: seq<Record>, count: nat, entries: seq<Source>) {
    && count <= |records|
    && (forall i :: 0 <= i < count ==>
          && !EmptySlot(records[i]) && Decode(records[i]).Success? && Decode(records[i]).value.active
          && PointsAtLast(Decode(records[i]).value, entries))
    && (forall i :: count <= i < |records| ==> EmptySlot(records[i]))
    && (forall i, j :: 0 <= i < j < count ==> Decode(records[i]).value.extension != Decode(records[j]).value.extension)
    && (forall k :: 0 <= k < |entries| ==>
          SourceExtension(entries[k]).Success? && Indexed(records, count, SourceExtension(entries[k]).value))
  }

  ghost predicate Indexed(records: seq<Record>, count: nat, extension: seq<Byte>)
    requires count <= |records|
  {
    exists i :: 0 <= i < count && Active(records[i], extension)
  }

  // ----- distinct extensions ------------------------------------------------------------------------

  /** No earlier entry has the extension of entry `k`. */
  predicate IsFirst(entries: seq<Source>, k: nat)
    requires k < |entries|
  {
    SourceExtension(entries[k]).Success?
    && forall j :: 0 <= j < k ==> !Matches(entries[j], SourceExtension(entries[k]).value)
  }

  /** The first entry of each extension, in order. */
  ghost predicate FirstsOf(entries: seq<Source>, n: nat, firsts: seq<nat>)
    requires n <= |entries|
  {
    Increasing(firsts) && forall k :: k in firsts <==> 0 <= k < n && IsFirst(entries, k)
  }

  /** All entries are sound, and their different extensions are at most `capacity`. */
  ghost predicate SoundAndFitting(entries: seq<Source>, capacity: nat) {
    && (forall k :: 0 <= k < |entries| ==> SourceExtension(entries[k]).Success?)
    && exists firsts :: FirstsOf(entries, |entries|, firsts) && |firsts| <= capacity
  }

  lemma FirstsGrow(entries: seq<Source>, n: nat, firsts: seq<nat>)
    requires n < |entries| && FirstsOf(entries, n, firsts)
    ensures IsFirst(entries, n) ==> FirstsOf(entries, n + 1, firsts + [n])
    ensures !IsFirst(entries, n) ==> FirstsOf(entries, n + 1, firsts)
  {
    hide IsFirst;
    Appended(firsts, n);
  }

  lemma FewerFirsts(entries: seq<Source>, n: nat, some: seq<nat>, all: seq<nat>)
    requires n <= |entries| && FirstsOf(entries, n, some) && FirstsOf(entries, |entries|, all)
    ensures |some| <= |all|
  {
    hide IsFirst;
    DistinctCount(some);
    DistinctCount(all);
    SubsetSize(Elements(some), Elements(all));
  }

  lemma TooMany(entries: seq<Source>, n: nat, firsts: seq<nat>, capacity: nat)
    requires n < |entries| && FirstsOf(entries, n, firsts) && IsFirst(entries, n) && |firsts| == capacity
    ensures !SoundAndFitting(entries, capacity)
  {
    hide IsFirst;
    FirstsGrow(entries, n, firsts);
    forall all | FirstsOf(entries, |entries|, all) ensures |all| > capacity {
      FewerFirsts(entries, n + 1, firsts + [n], all);
    }
  }

  // ----- the rebuild, entry by entry ----------------------------------------------------------------

  lemma NothingIndexed(records: seq<Record>)
    requires forall i :: 0 <= i < |records| ==> records[i] == NO_RECORD
    ensures Indexes(records, 0, [])
  {}

  /** A new extension finds a free slot. */
  lemma RoomForOneMore(records: seq<Record>, count: nat, entries: seq<Source>, index: nat, seen: seq<nat>,
                       firsts: seq<nat>)
    requires index < |entries| && Indexes(records, count, entries[..index]) && SourceExtension(entries[index]).Success?
    requires FirstsOf(entries, index, seen) && |seen| == count
    requires FirstsOf(entries, |entries|, firsts) && |firsts| <= |records|
    ensures count < |records| || Indexed(records, count, SourceExtension(entries[index]).value)
  {
    hide Decode, SourceExtension;
    FirstsGrow(entries, index, seen);
    KnownIsIndexed(records, count, entries, index);
    if IsFirst(entries, index) {
      FewerFirsts(entries, index + 1, seen + [index], firsts);
    }
  }

  /** An extension has a record exactly when an earlier entry had it. */
  lemma KnownIsIndexed(records: seq<Record>, count: nat, entries: seq<Source>, index: nat)
    requires index < |entries| && Indexes(records, count, entries[..index]) && SourceExtension(entries[index]).Success?
    ensures Indexed(records, count, SourceExtension(entries[index]).value) <==> !IsFirst(entries, index)
  {
    hide Decode, EmptySlot, SourceExtension;
    var x, before := SourceExtension(entries[index]).value, entries[..index];
    if !IsFirst(entries, index) {
      var j :| 0 <= j < index && Matches(entries[j], x);
      assert before[j] == entries[j];
    }
    if Indexed(records, count, x) {
      var i :| 0 <= i < count && Active(records[i], x);
      assert PointsAtLast(Decode(records[i]).value, before);
      var k :| 0 <= k < |before| && Matches(before[k], x);
      assert Matches(entries[k], x);
    }
  }

  /** The hint of another extension still points at its last entry. */
  lemma OtherStillLast(h: Hint, entries: seq<Source>, index: nat)
    requires index < |entries| && PointsAtLast(h, entries[..index]) && !Matches(entries[index], h.extension)
    ensures PointsAtLast(h, entries[..index + 1])
  {
    hide SourceExtension;
    var before, after := entries[..index], entries[..index + 1];
    var k :| 0 <= k < |before| && Matches(before[k], h.extension) && LastFor(before, k, h.extension)
             && h.cluster == before[k].cluster && h.slot == before[k].slot;
    forall j | k < j < |after| ensures !Matches(after[j], h.extension) {
      if j < index {
        assert after[j] == before[j];
      }
    }
    assert after[k] == before[k];
  }

  lemma NewestIsLast(h: Hint, entries: seq<Source>, index: nat)
    requires index < |entries| && Matches(entries[index], h.extension)
    requires h.cluster == entries[index].cluster && h.slot == entries[index].slot
    ensures PointsAtLast(h, entries[..index + 1])
  {
    assert entries[..index + 1][index] == entries[index];
  }

  lemma AllActive(records: seq<Record>, count: nat, entries: seq<Source>)
    requires Indexes(records, count, entries)
    ensures count <= |records|
    ensures forall i :: 0 <= i < count ==>
              !EmptySlot(records[i]) && Decode(records[i]).Success? && Decode(records[i]).value.active
  {
    hide Decode, EmptySlot;
  }

  lemma WhereItIs(records: seq<Record>, count: nat, extension: seq<Byte>, target: nat)
    requires target <= count <= |records|
    requires forall i :: 0 <= i < count && i < target ==> !Active(records[i], extension)
    requires target < count ==> Active(records[target], extension)
    ensures target == count <==> !Indexed(records, count, extension)
  {
    hide Active;
  }

  lemma NoteKeeps(was: seq<Record>, now: seq<Record>, before: nat, count: nat, target: nat, entries: seq<Source>,
                  index: nat, hint: Hint)
    requires index < |entries| && Indexes(was, before, entries[..index]) && Matches(entries[index], hint.extension)
    requires target <= before && target < |was| && count == (if target == before then before + 1 else before)
    requires |now| == |was| && forall i :: 0 <= i < |was| && i != target ==> now[i] == was[i]
    requires !EmptySlot(now[target]) && Decode(now[target]) == Success(hint) && hint.active
    requires hint.cluster == entries[index].cluster && hint.slot == entries[index].slot
    requires forall i :: 0 <= i < before && i < target ==> !Active(was[i], hint.extension)
    requires target < before ==> Active(was[target], hint.extension)
    ensures Indexes(now, count, entries[..index + 1])
  {
    hide Decode, EmptySlot, SourceExtension, LastFor, PointsAtLast;
    var older, newer := entries[..index], entries[..index + 1];
    assert newer == older + [entries[index]];
    NewestIsLast(hint, entries, index);
    forall i | 0 <= i < count
      ensures !EmptySlot(now[i]) && Decode(now[i]).Success? && Decode(now[i]).value.active
      ensures PointsAtLast(Decode(now[i]).value, newer)
    {
      if i != target {
        assert !Active(was[i], hint.extension);
        OtherStillLast(Decode(was[i]).value, entries, index);
      }
    }
    forall k | 0 <= k < |newer|
      ensures SourceExtension(newer[k]).Success? && Indexed(now, count, SourceExtension(newer[k]).value)
    {
      if k == index {
        assert Active(now[target], hint.extension);
      } else {
        var x := SourceExtension(older[k]).value;
        assert newer[k] == older[k] && Indexed(was, before, x);
        var i :| 0 <= i < before && Active(was[i], x);
        assert Active(now[i], x);
      }
    }
  }

  /** What the lookup may rely on when the registry is up to date. */
  lemma HintIsTrue(records: seq<Record>, count: nat, entries: seq<Source>, extension: seq<Byte>)
    requires Indexes(records, count, entries)
    ensures Consistent(records, extension)
    ensures forall i :: 0 <= i < |records| && Active(records[i], extension) ==>
            PointsAtLast(Decode(records[i]).value, entries)
    ensures (forall i :: 0 <= i < |records| ==> !Active(records[i], extension)) ==>
              forall k :: 0 <= k < |entries| ==> !Matches(entries[k], extension)
  {
    hide Decode, EmptySlot, SourceExtension, PointsAtLast;
    forall k | 0 <= k < |entries| && Matches(entries[k], extension)
      ensures exists i :: 0 <= i < |records| && Active(records[i], extension)
    {
      assert Indexed(records, count, SourceExtension(entries[k]).value);
    }
  }

  /** The hint, or its absence, agrees with the entries. */
  ghost predicate Confirmed(records: seq<Record>, entries: seq<Source>, extension: seq<Byte>) {
    && (forall i :: 0 <= i < |records| && Active(records[i], extension) ==>
          PointsAtMatch(Decode(records[i]).value, entries))
    && ((forall i :: 0 <= i < |records| ==> !Active(records[i], extension)) ==>
          forall k :: 0 <= k < |entries| ==> !Matches(entries[k], extension))
  }

  ghost predicate PointsAtMatch(h: Hint, entries: seq<Source>) {
    exists k :: 0 <= k < |entries| && Matches(entries[k], h.extension) && h.cluster == entries[k].cluster
      && h.slot == entries[k].slot
  }

  /** A slot that a new extension may take. */
  predicate Available(r: Record) {
    EmptySlot(r) || (Decode(r).Success? && !Decode(r).value.active)
  }

  predicate Open(health: Health) {
    health in {Disabled, Healthy, Full}
  }

  /** What a refresh of an enabled registry does to the records, the health and the status. */
  ghost predicate Refreshed(was: seq<Record>, now: seq<Record>, x: seq<Byte>, e: Source, before: Health, after: Health,
                            status: Status, index: nat)
  {
    if !Consistent(was, x) then status == Corrupt && now == was && after == CorruptRegistry
    else if (forall i :: 0 <= i < |was| ==> !Active(was[i], x))
            && (before == Full || forall i :: 0 <= i < |was| ==> !Available(was[i])) then
      status == NoSpace && now == was && after == Full
    else
      && status == Ok && after == before && |now| == |was| && index < |was| && Consistent(now, x)
      && Active(now[index], x) && Decode(now[index]).value.cluster == e.cluster
      && Decode(now[index]).value.slot == e.slot
      && OthersKept(was, now, x)
  }

  /** Every other extension has the records it had. */
  ghost predicate OthersKept(was: seq<Record>, now: seq<Record>, x: seq<Byte>)
    requires |now| == |was|
  {
    forall i, y :: 0 <= i < |was| && y != x ==>
      (Active(now[i], y) <==> Active(was[i], y)) && (Active(was[i], y) ==> now[i] == was[i])
  }

  lemma OneRecordReplaced(was: seq<Record>, now: seq<Record>, index: nat, x: seq<Byte>)
    requires Consistent(was, x) && index < |was| && |now| == |was| && now == was[index := now[index]]
    requires Available(was[index]) || Active(was[index], x)
    requires Available(was[index]) ==> forall i :: 0 <= i < |was| ==> !Active(was[i], x)
    requires Active(now[index], x)
    ensures Consistent(now, x) && OthersKept(was, now, x)
  {
    hide Decode, EmptySlot;
  }

  const NO_RECORD: Record := seq(RECORD_SIZE, _ => 0)

  class Registry {
    var records: seq<Record>
    var enabled: bool
    var health: Health

    constructor (capacity: nat, enabled: bool)
      requires capacity > 0
      ensures records == seq(capacity, _ => NO_RECORD) && this.enabled == enabled
      ensures health == if enabled then Healthy else Disabled
    {
      records := seq(capacity, _ => NO_RECORD);
      this.enabled := enabled;
      health := if enabled then Healthy else Disabled;
    }

    /** The registry is up to date for these entries. */
    ghost predicate UpToDate(entries: seq<Source>)
      reads this
    {
      enabled && health == Healthy && exists count :: Indexes(records, count, entries)
    }

    /** The one active record for an extension; unreadable or doubled records spoil the registry. */
    method FindActiveRecord(extension: seq<Byte>) returns (status: Status, index: nat, hint: Hint)
      modifies this`health
      ensures status in {Ok, NotFound, Corrupt}
      ensures status == Corrupt <==> !Consistent(records, extension)
      ensures status == Ok ==>
              index < |records| && Active(records[index], extension) && hint == Decode(records[index]).value
      ensures status == NotFound ==> forall i :: 0 <= i < |records| ==> !Active(records[i], extension)
      ensures health == if status == Corrupt then CorruptRegistry else old(health)
    {
      hide Decode, EmptySlot;
      var found := false;
      index, hint := 0, Hint(false, [], 0, 0, 0);
      for i := 0 to |records|
        invariant health == old(health)
        invariant forall j :: 0 <= j < i ==> Readable(records[j])
        invariant found ==> index < i && Active(records[index], extension) && hint == Decode(records[index]).value
        invariant forall j :: 0 <= j < i && Active(records[j], extension) ==> found && j == index
      {
        if EmptySlot(records[i]) {
          continue;
        }
        var decoded := Decode(records[i]);
        if decoded.Failure? {
          health := CorruptRegistry;
          return Corrupt, index, hint;
        }
        if decoded.value.active && decoded.value.extension == extension {
          if found {
            health := CorruptRegistry;
            return Corrupt, index, hint;
          }
          found, index, hint := true, i, decoded.value;
        }
      }
      status := if found then Ok else NotFound;
    }

    /**
      Answers from the entries alone.  The registry is only looked at to see whether it is still true,
      and after a rebuild over the same entries it always is.
    */
    method Lookup(entries: seq<Source>, extension: seq<Byte>, capacity: nat) returns (status: Status, matches: seq<nat>)
      modifies this`health
      ensures !ValidExtension(extension) ==> status == InvalidArgument && matches == [] && health == old(health)
      ensures ValidExtension(extension) ==> (status, matches) == Filtered(entries, extension, capacity, 0, [])
      ensures health in {old(health), Stale, CorruptRegistry}
      ensures health != old(health) ==> old(health) == Healthy && enabled
      ensures old(UpToDate(entries)) ==> UpToDate(entries)
      ensures enabled && old(health) == Healthy && ValidExtension(extension) && Consistent(records, extension)
              && status == Ok ==>
              (health == Healthy <==> Confirmed(records, entries, extension))
    {
      hide Decode, EmptySlot, SourceExtension, Indexes;
      matches := [];
      if !ValidExtension(extension) {
        return InvalidArgument, [];
      }
      var inspect, hintFound, hintValid := enabled && health == Healthy, false, false;
      var hint := Hint(false, [], 0, 0, 0);
      if inspect {
        var index;
        status, index, hint := FindActiveRecord(extension);
        hintFound := status == Ok;
        inspect := status != Corrupt;
        if count :| Indexes(records, count, entries) {
          HintIsTrue(records, count, entries, extension);
        }
      }
      for i := 0 to |entries|
        invariant Filtered(entries, extension, capacity, i, matches) == Filtered(entries, extension, capacity, 0, [])
        invariant hintFound && !hintValid ==> forall j :: 0 <= j < i && Matches(entries[j], extension) ==>
                    !(entries[j].cluster == hint.cluster && entries[j].slot == hint.slot)
        invariant hintValid ==> hintFound && PointsAtMatch(hint, entries)
        invariant matches != [] <==> exists j :: 0 <= j < i && Matches(entries[j], extension)
      {
        var x := SourceExtension(entries[i]);
        if x.Failure? {
          return x.error, matches;
        }
        if hintFound && entries[i].cluster == hint.cluster && entries[i].slot == hint.slot && x.value == extension {
          hintValid := true;
          assert Matches(entries[i], hint.extension);
        }
        if x.value != extension {
          continue;
        }
        if |matches| == capacity {
          return NoSpace, matches;
        }
        assert Matches(entries[i], extension);
        matches := matches + [i];
      }
      assert Consistent(records, extension) && inspect ==>
          (Confirmed(records, entries, extension) <==> if hintFound then hintValid else matches == []);
      if inspect && ((hintFound && !hintValid) || (!hintFound && matches != [])) {
        health := Stale;
      }
      status := Ok;
    }

    /**
      Points the record of the entry's extension at the entry, taking a free slot for a new extension
      unless the registry has been full.  The records of all other extensions stay as they are.
    */
    method Refresh(e: Source) returns (status: Status, index: nat)
      modifies this`records, this`health
      ensures enabled == old(enabled) && |records| == |old(records)|
      ensures !enabled ==> status == Ok && records == old(records) && health == old(health)
      ensures enabled && old(health) in {CorruptRegistry, Stale} ==>
              status == Corrupt && records == old(records) && health == old(health)
      ensures enabled && old(health) == Rebuilding ==>
              status == InvalidState && records == old(records) && health == old(health)
      ensures enabled && Open(old(health)) && SourceExtension(e).Failure? ==>
              status == SourceExtension(e).error && records == old(records) && health == old(health)
      ensures enabled && Open(old(health)) && SourceExtension(e).Success? ==>
              Refreshed(old(records), records, SourceExtension(e).value, e, old(health), health, status, index)
    {
      hide Decode, EmptySlot, SourceExtension, HintBytes;
      index := 0;
      if !enabled {
        return Ok, index;
      }
      if health == CorruptRegistry || health == Stale {
        return Corrupt, index;
      }
      if health == Rebuilding {
        return InvalidState, index;
      }
      var x := SourceExtension(e);
      if x.Failure? {
        return x.error, index;
      }
      ExtensionIsValid(e);
      var known, free, generation;
      status, known, free, generation := Survey(x.value);
      if status.Failed() {
        return;
      }
      if known == |records| && health != Full {
        known := free;
      }
      if known == |records| {
        health := Full;
        return NoSpace, index;
      }
      index := known;
      var hint := Hint(true, x.value, e.cluster, e.slot, (generation + 1) % 0x1_0000);
      EncodeDecodes(hint);
      ghost var was := records;
      records := records[index := HintBytes(hint)];
      OneRecordReplaced(was, records, index, x.value);
      status := Ok;
    }

    /** One pass over the records: the active one of the extension, the first free slot, or corruption. */
    method Survey(extension: seq<Byte>) returns (status: Status, known: nat, free: nat, generation: nat)
      modifies this`health
      ensures status in {Ok, Corrupt} && (status == Corrupt <==> !Consistent(records, extension))
      ensures health == if status == Corrupt then CorruptRegistry else old(health)
      ensures known <= |records| && free <= |records|
      ensures status == Ok ==> forall i :: 0 <= i < |records| ==> (Active(records[i], extension) <==> i == known)
      ensures status == Ok ==> (free < |records| ==> Available(records[free]))
      ensures status == Ok ==> forall i :: 0 <= i < free ==> !Available(records[i])
      ensures status == Ok && known < |records| ==>
              Decode(records[known]).Success? && generation == Decode(records[known]).value.generation
      ensures status == Ok && known == |records| ==> generation == 0
    {
      hide Decode, EmptySlot;
      known, free, generation := |records|, |records|, 0;
      for i := 0 to |records|
        invariant health == old(health) && known <= |records| && free <= |records|
        invariant forall j :: 0 <= j < i ==> Readable(records[j])
        invariant known < |records| ==>
                  known < i && Decode(records[known]).Success? && generation == Decode(records[known]).value.generation
        invariant known == |records| ==> generation == 0
        invariant forall j :: 0 <= j < i ==> (Active(records[j], extension) <==> j == known)
        invariant free < |records| ==> free < i && Available(records[free])
        invariant forall j :: 0 <= j < i && j < free ==> !Available(records[j])
      {
        if EmptySlot(records[i]) {
          free := if free == |records| then i else free;
          continue;
        }
        var decoded := Decode(records[i]);
        if decoded.Failure? {
          health := CorruptRegistry;
          return Corrupt, known, free, generation;
        }
        if !decoded.value.active {
          free := if free == |records| then i else free;
          continue;
        }
        if decoded.value.extension == extension {
          if known < |records| {
            health := CorruptRegistry;
            return Corrupt, known, free, generation;
          }
          known, generation := i, decoded.value.generation;
        }
      }
      status := Ok;
    }

    /** Starts over from the given entries: afterwards one record per extension, pointing at its last entry. */
    method Rebuild(entries: seq<Source>) returns (status: Status)
      modifies this`records, this`health
      ensures |records| == |old(records)| && enabled == old(enabled)
      ensures !enabled ==> status == Ok && records == old(records) && health == old(health)
      ensures enabled && status == Ok ==> UpToDate(entries)
      ensures enabled && status != Ok ==> records == old(records) && health in {old(health), Full}
      ensures enabled && status == Ok <==> enabled && SoundAndFitting(entries, |records|)
    {
      hide Decode, EmptySlot, SourceExtension, HintBytes;
      if !enabled {
        return Ok;
      }
      ghost var firsts;
      status, firsts := ValidateEntries(entries, |records|);
      if status == NoSpace {
        health := Full;
        return;
      }
      if status.Failed() {
        return;
      }
      health := Rebuilding;
      records := seq(|records|, _ => NO_RECORD);
      NothingIndexed(records);
      var count: nat := 0;
      ghost var seen: seq<nat> := [];
      assert entries[..0] == [];
      for index := 0 to |entries|
        invariant |records| == |old(records)| && health == Rebuilding && enabled
        invariant Indexes(records, count, entries[..index]) && FirstsOf(entries, index, seen) && |seen| == count
      {
        ExtensionIsValid(entries[index]);
        assert SourceExtension(entries[index]).Success?;
        RoomForOneMore(records, count, entries, index, seen, firsts);
        FirstsGrow(entries, index, seen);
        count := Note(entries, index, count);
        seen := if IsFirst(entries, index) then seen + [index] else seen;
      }
      assert entries[..|entries|] == entries;
      health := Healthy;
    }

    /** Records one entry: over the record of its extension, or in the next slot. */
    method Note(entries: seq<Source>, index: nat, before: nat) returns (count: nat)
      requires index < |entries| && Indexes(records, before, entries[..index])
      requires SourceExtension(entries[index]).Success? && ValidExtension(SourceExtension(entries[index]).value)
      requires before < |records| || Indexed(records, before, SourceExtension(entries[index]).value)
      modifies this`records
      ensures |records| == |old(records)| && Indexes(records, count, entries[..index + 1])
      ensures count == if IsFirst(entries, index) then before + 1 else before
    {
      hide Decode, EmptySlot, SourceExtension, HintBytes, PointsAtLast, IsFirst, Indexes, Indexed, Active, Extension;
      KnownIsIndexed(records, before, entries, index);
      AllActive(records, before, entries[..index]);
      var extension := SourceExtension(entries[index]).value;
      var target, generation := SlotFor(extension, before);
      WhereItIs(records, before, extension, target);
      count := if target == before then before + 1 else before;
      var hint := Hint(true, extension, entries[index].cluster, entries[index].slot, (generation + 1) % 0x1_0000);
      EncodeDecodes(hint);
      ghost var was := records;
      records := records[target := HintBytes(hint)];
      NoteKeeps(was, records, before, count, target, entries, index, hint);
    }

    /** The slot of the extension's record and its generation, or the first free slot. */
    method SlotFor(extension: seq<Byte>, count: nat) returns (target: nat, generation: nat)
      requires count <= |records|
      requires forall i :: 0 <= i < count ==>
                 !EmptySlot(records[i]) && Decode(records[i]).Success? && Decode(records[i]).value.active
      ensures target <= count
      ensures forall i :: 0 <= i < count && i < target ==> !Active(records[i], extension)
      ensures target < count ==>
              Active(records[target], extension) && generation == Decode(records[target]).value.generation
      ensures target == count ==> generation == 0
    {
      hide Decode, EmptySlot;
      target, generation := 0, 0;
      while target < count
        invariant target <= count && generation == 0
        invariant forall i :: 0 <= i < target ==> !Active(records[i], extension)
      {
        var record := Decode(records[target]).value;
        if record.extension == extension {
          generation := record.generation;
          return;
        }
        target := target + 1;
      }
    }

    /** Whether the entries are sound and their extensions fit; `firsts` are the first of each. */
    method ValidateEntries(entries: seq<Source>, capacity: nat) returns (status: Status, ghost firsts: seq<nat>)
      ensures status == Ok <==> SoundAndFitting(entries, capacity)
      ensures status == Ok ==> |firsts| <= capacity && FirstsOf(entries, |entries|, firsts)
      ensures status == Ok ==> forall k :: 0 <= k < |entries| ==> SourceExtension(entries[k]).Success?
    {
      hide SourceExtension;
      var unique: nat := 0;
      firsts := [];
      for index := 0 to |entries|
        invariant unique == |firsts| <= capacity && FirstsOf(entries, index, firsts)
        invariant forall k :: 0 <= k < index ==> SourceExtension(entries[k]).Success?
      {
        var x := SourceExtension(entries[index]);
        if x.Failure? {
          return x.error, firsts;
        }
        var duplicate := false;
        for prior := 0 to index
          invariant !duplicate && forall k :: 0 <= k < prior ==> !Matches(entries[k], x.value)
        {
          if SourceExtension(entries[prior]).value == x.value {
            assert Matches(entries[prior], x.value);
            duplicate := true;
            break;
          }
        }
        assert duplicate <==> !IsFirst(entries, index);
        FirstsGrow(entries, index, firsts);
        if !duplicate {
          unique := unique + 1;
          if unique > capacity {
            TooMany(entries, index, firsts, capacity);
            return NoSpace, firsts;
          }
          firsts := firsts + [index];
        }
      }
      status := Ok;
    }
  }
}
