/**
  What the file service answers to a request as long as the storage below it does its part: served, or
  refused for one exact reason that lies in the directory, the file or the table.
*/
module Refusals {
  import opened Bytes
  import opened Status
  import opened Layout
  import opened Records
  import opened FatChain
  import opened FatTable
  import opened BlockDevice
  import opened CrashSafety
  import opened Quiescence
  import opened Lookup
  import opened DirectoryState
  import opened Runs
  import opened Collections
  import Directory
  import DirectoryChange

  const MAX_CLUSTERS := 256

  // ----- walks and searches -------------------------------------------------------------------------

  /** The chain that starts at a cluster, if it fits the workspace, or the reason why the walk fails. */
  ghost function ChainFrom(fat: seq<u32>, n: nat, start: u32): Result<seq<u32>>
    requires n <= |fat|
  {
    if FitsIn(fat, n, start, MAX_CLUSTERS) then
      var cs :| IsChain(fat, n, start, cs) && |cs| <= MAX_CLUSTERS;
      Success(cs)
    else Failure(WalkError(fat, n, start, MAX_CLUSTERS))
  }

  lemma ChainIs(fat: seq<u32>, n: nat, start: u32, cs: seq<u32>)
    requires n <= |fat| && IsChain(fat, n, start, cs) && |cs| <= MAX_CLUSTERS
    ensures ChainFrom(fat, n, start) == Success(cs)
  {
    forall other | IsChain(fat, n, start, other) ensures other == cs {
      ChainUnique(fat, n, start, other, cs);
    }
  }

  lemma NoChainFrom(fat: seq<u32>, n: nat, start: u32)
    requires n <= |fat| && !FitsIn(fat, n, start, MAX_CLUSTERS)
    ensures ChainFrom(fat, n, start) == Failure(WalkError(fat, n, start, MAX_CLUSTERS))
  {}

  /** A chain that is too long for the workspace. */
  lemma LongChainFails(fat: seq<u32>, n: nat, start: u32, cs: seq<u32>)
    requires n <= |fat| && IsChain(fat, n, start, cs)
    ensures ChainFrom(fat, n, start).Failure? ==> |cs| > MAX_CLUSTERS
  {}

  /** The first entry of a cluster's listing that the query asks for. */
  ghost function Earliest(q: Query, c: nat, entries: seq<Directory.Entry>): Option<Found> {
    if entries == [] then None
    else if Hit(q, Found(c, entries[0])) then Some(Found(c, entries[0]))
    else Earliest(q, c, entries[1..])
  }

  lemma {:induction false} EarliestIs(q: Query, c: nat, entries: seq<Directory.Entry>, k: nat)
    requires k <= |entries| && forall i :: 0 <= i < k ==> !Hit(q, Found(c, entries[i]))
    requires k < |entries| ==> Hit(q, Found(c, entries[k]))
    ensures Earliest(q, c, entries) == if k < |entries| then Some(Found(c, entries[k])) else None
  {
    hide Hit;
    if k > 0 {
      EarliestIs(q, c, entries[1..], k - 1);
    }
  }

  /** What a search through these clusters reports: the first hit, or the first cluster that cannot be scanned. */
  ghost function SearchIn(v: Volume, disk: Disk, cs: seq<u32>, q: Query): Result<Option<Found>>
    requires v.Holds(disk)
  {
    if cs == [] then Success(None)
    else if cs[0] !in v.dirs then Failure(Corrupt) // no directory has such a cluster
    else
      match Directory.Scan(DirSlots(v, disk, cs[0]))
      case Failure(error) => Failure(error)
      case Success(entries) =>
        if Earliest(q, cs[0], entries).Some? then Success(Earliest(q, cs[0], entries))
          else SearchIn(v, disk, cs[1..], q)
  }

  /** One more cluster of a search. */
  lemma SearchStep(v: Volume, disk: Disk, cs: seq<u32>, k: nat, q: Query)
    requires v.Holds(disk) && k < |cs| && cs[k] in v.dirs && SearchIn(v, disk, cs[k..], q) == SearchIn(v, disk, cs, q)
    ensures var scan := Directory.Scan(DirSlots(v, disk, cs[k]));
            SearchIn(v, disk, cs, q) ==
            if scan.Failure? then Failure(scan.error)
            else if Earliest(q, cs[k], scan.value).Some? then Success(Earliest(q, cs[k], scan.value))
            else SearchIn(v, disk, cs[k + 1..], q)
  {
    assert cs[k..][0] == cs[k] && cs[k..][1..] == cs[k + 1..];
  }

  lemma SearchedAll(v: Volume, disk: Disk, cs: seq<u32>, q: Query)
    requires v.Holds(disk)
    ensures SearchIn(v, disk, cs[|cs|..], q) == Success(None)
  {
    assert cs[|cs|..] == [];
  }

  lemma ChainIsInDirs(v: Volume, fat: seq<u32>, directory: u32, cs: seq<u32>, k: nat)
    requires v.g.Valid() && |fat| == v.g.fatSectors * ENTRIES_PER_SECTOR && DirsClosed(v, fat)
    requires IsChain(fat, v.g.Entries(), directory, cs) && directory in v.dirs && k < |cs|
    ensures cs[k] in v.dirs
  {
    ChainInDirs(v, fat, directory, cs, k);
  }

  ghost function Searched(v: Volume, fat: seq<u32>, disk: Disk, directory: nat, q: Query): Result<Option<Found>>
    requires v.Holds(disk) && |fat| == v.g.fatSectors * ENTRIES_PER_SECTOR
  {
    if !ClusterInRange(v.g, directory) then Failure(InvalidArgument)
    else
      match ChainFrom(fat, v.g.Entries(), directory)
      case Failure(error) => Failure(error)
      case Success(cs) => SearchIn(v, disk, cs, q)
  }

  /** The file that has its primary record at the given slot. */
  ghost function ObjectIn(c: nat, entries: seq<Directory.Entry>, primarySlot: nat): Option<Found> {
    if entries == [] then None
    else if entries[0].kind == Directory.Regular && entries[0].primarySlot == primarySlot
         then Some(Found(c, entries[0]))
    else ObjectIn(c, entries[1..], primarySlot)
  }

  /** An object's identity is a place; whatever lies there is read as a directory cluster. */
  ghost function ObjectAt(disk: Disk, g: Geometry, cluster: nat, primarySlot: nat): Result<Option<Found>>
    requires Fits(disk, g)
  {
    if !ClusterInRange(g, cluster) || primarySlot >= SLOTS then Failure(InvalidArgument)
    else
      match Directory.Scan(RecordsOf(disk, g, cluster))
      case Failure(error) => Failure(error)
      case Success(entries) => Success(ObjectIn(cluster, entries, primarySlot))
  }

  lemma {:induction false} ObjectIs(c: nat, entries: seq<Directory.Entry>, slot: nat, k: nat)
    requires k <= |entries|
    requires forall i :: 0 <= i < k ==> entries[i].kind != Directory.Regular || entries[i].primarySlot != slot
    requires k < |entries| ==> entries[k].kind == Directory.Regular && entries[k].primarySlot == slot
    ensures ObjectIn(c, entries, slot) == if k < |entries| then Some(Found(c, entries[k])) else None
  {
    if k > 0 {
      ObjectIs(c, entries[1..], slot, k - 1);
    }
  }

  ghost function Located(v: Volume, fat: seq<u32>, disk: Disk, where: Locator): Result<Found>
    requires v.Holds(disk) && |fat| == v.g.fatSectors * ENTRIES_PER_SECTOR
  {
    var found :=
      match where
      case ByName(directory, name) => Searched(v, fat, disk, directory, WholeName(name))
      case ByObject(cluster, primarySlot) => ObjectAt(disk, v.g, cluster, primarySlot);
    match found
    case Failure(error) => Failure(error)
    case Success(None) => Failure(NotFound)
    case Success(Some(f)) => Success(f)
  }

  ghost function LocatedFile(v: Volume, fat: seq<u32>, disk: Disk, where: Locator): Result<Found>
    requires v.Holds(disk) && |fat| == v.g.fatSectors * ENTRIES_PER_SECTOR
  {
    match Located(v, fat, disk, where)
    case Failure(error) => Failure(error)
    case Success(f) => if f.entry.kind == Directory.Regular then Success(f) else Failure(InvalidArgument)
  }

  // ----- the answers --------------------------------------------------------------------------------

  ghost function FileChain(v: Volume, fat: seq<u32>, p: Primary): Result<seq<u32>>
    requires v.g.Valid() && |fat| == v.g.fatSectors * ENTRIES_PER_SECTOR
  {
    if p.fileSize == 0 then (if p.firstCluster == 0 then Success([]) else Failure(Corrupt))
    else ChainFrom(fat, v.g.Entries(), p.firstCluster)
  }

  ghost predicate HasClusters(v: Volume, fat: seq<u32>, count: nat)
    requires v.g.Valid() && |fat| == v.g.fatSectors * ENTRIES_PER_SECTOR
  {
    count <= |FreeClusters(fat, v.g.Entries())|
  }

  /** Room for the new content is needed beside the old. */
  ghost function SaveAnswer(v: Volume, fat: seq<u32>, p: Primary, bytes: seq<Byte>, append: bool): Status
    requires v.g.Valid() && |fat| == v.g.fatSectors * ENTRIES_PER_SECTOR
  {
    var size := if append then p.fileSize + |bytes| else |bytes|;
    match FileChain(v, fat, p)
    case Failure(error) => error
    case Success(_) =>
      if size > MAX_CLUSTERS * CLUSTER_BYTES
         || !HasClusters(v, fat, (size + CLUSTER_BYTES - 1) / CLUSTER_BYTES) then NoSpace
      else Ok
  }

  /** The new name must be free in the cluster's directory, base and whole, but for the file itself. */
  ghost function RenameAnswer(v: Volume, fat: seq<u32>, disk: Disk, f: Found, name: Name): Status
    requires v.Holds(disk) && |fat| == v.g.fatSectors * ENTRIES_PER_SECTOR
  {
    match Searched(v, fat, disk, f.cluster, WholeName(name))
    case Failure(error) => error
    case Success(Some(_)) => if f.entry.primary.name == name then Ok else AlreadyExists
    case Success(None) =>
      match Searched(v, fat, disk, f.cluster, BaseName(name, Some(f)))
      case Failure(error) => error
      case Success(Some(_)) => AlreadyExists
      case Success(None) => Ok
  }

  /** A chain too long to be listed is not given back. */
  ghost function DeleteAnswer(v: Volume, fat: seq<u32>, p: Primary): Status
    requires v.g.Valid() && |fat| == v.g.fatSectors * ENTRIES_PER_SECTOR
  {
    if p.firstCluster == 0 then Ok
    else
      match ChainFrom(fat, v.g.Entries(), p.firstCluster)
      case Failure(error) => error
      case Success(_) => Ok
  }

  ghost predicate HasFreePair(v: Volume, disk: Disk, cs: seq<u32>)
    requires v.Holds(disk)
  {
    exists k :: 0 <= k < |cs| && !Packed(v, disk, cs[k])
  }

  /** The search for a free slot pair in a directory. */
  ghost function PairAnswer(v: Volume, fat: seq<u32>, disk: Disk, directory: u32): Status
    requires v.Holds(disk) && |fat| == v.g.fatSectors * ENTRIES_PER_SECTOR
  {
    match ChainFrom(fat, v.g.Entries(), directory)
    case Failure(error) => error
    case Success(cs) => if HasFreePair(v, disk, cs) then Ok else NoSpace
  }

  lemma PairMeansRoom(v: Volume, disk: Disk, cs: seq<u32>, k: nat, slot: nat)
    requires v.Holds(disk) && k < |cs| && cs[k] in v.dirs && slot + 1 < SLOTS
    requires Directory.PairFree(DirSlots(v, disk, cs[k]), slot)
    ensures HasFreePair(v, disk, cs)
  {
    assert !Packed(v, disk, cs[k]);
  }

  ghost function CreateAnswer(v: Volume, fat: seq<u32>, disk: Disk, directory: nat, name: Name): Status
    requires v.Holds(disk) && |fat| == v.g.fatSectors * ENTRIES_PER_SECTOR
  {
    match Searched(v, fat, disk, directory, BaseName(name, None))
    case Failure(error) => error
    case Success(Some(_)) => AlreadyExists
    case Success(None) => PairAnswer(v, fat, disk, directory)
  }

  /** The answer to a request, given the table in memory and the volume as clients see it. */
  ghost function Answer(v: Volume, fat: seq<u32>, disk: Disk, r: Request): Status
    requires v.Holds(disk) && |fat| == v.g.fatSectors * ENTRIES_PER_SECTOR
  {
    match r
    case Creating(directory, name) => CreateAnswer(v, fat, disk, directory, name)
    case Replacing(where, bytes) =>
      (match LocatedFile(v, fat, disk, where)
       case Failure(error) => error
       case Success(f) => SaveAnswer(v, fat, f.entry.primary, bytes, false))
    case Appending(where, bytes) =>
      (match LocatedFile(v, fat, disk, where)
       case Failure(error) => error
       case Success(f) => SaveAnswer(v, fat, f.entry.primary, bytes, true))
    case Removing(where) =>
      (match LocatedFile(v, fat, disk, where)
       case Failure(error) => error
       case Success(f) => DeleteAnswer(v, fat, f.entry.primary))
    case Renaming(where, name) =>
      (match LocatedFile(v, fat, disk, where)
       case Failure(error) => error
       case Success(f) => RenameAnswer(v, fat, disk, f, name))
  }

  /** No answer that the directory, the file or the table calls for is one of the storage below. */
  lemma AnswerIsOwn(v: Volume, fat: seq<u32>, disk: Disk, r: Request)
    requires v.Holds(disk) && |fat| == v.g.fatSectors * ENTRIES_PER_SECTOR
    ensures !Answer(v, fat, disk, r).FromBelow()
  {
    hide ChainFrom, Located, Searched, HasFreePair, HasClusters;
    match r
    case Creating(directory, name) =>
      SearchedErrors(v, fat, disk, directory, BaseName(name, None));
      if directory <= 0xffff_ffff {
        ChainErrors(fat, v.g.Entries(), directory);
      }
    case Replacing(where, _) => FileErrors(v, fat, disk, where);
    case Appending(where, _) => FileErrors(v, fat, disk, where);
    case Removing(where) => FileErrors(v, fat, disk, where);
    case Renaming(where, name) =>
      FileErrors(v, fat, disk, where);
      match LocatedFile(v, fat, disk, where)
      case Failure(_) =>
      case Success(f) =>
        SearchedErrors(v, fat, disk, f.cluster, WholeName(name));
        SearchedErrors(v, fat, disk, f.cluster, BaseName(name, Some(f)));
  }

  lemma FileErrors(v: Volume, fat: seq<u32>, disk: Disk, where: Locator)
    requires v.Holds(disk) && |fat| == v.g.fatSectors * ENTRIES_PER_SECTOR
    ensures match LocatedFile(v, fat, disk, where)
            case Failure(error) => !error.FromBelow()
            case Success(f) =>
              forall start: u32 :: ChainFrom(fat, v.g.Entries(), start).Failure? ==>
                !ChainFrom(fat, v.g.Entries(), start).error.FromBelow()
  {
    hide ChainFrom, Searched, Directory.Scan, RecordsOf, ObjectIn;
    forall start: u32 ensures ChainFrom(fat, v.g.Entries(), start).Failure? ==>
                              !ChainFrom(fat, v.g.Entries(), start).error.FromBelow()
    {
      ChainErrors(fat, v.g.Entries(), start);
    }
    match where
    case ByName(directory, name) => SearchedErrors(v, fat, disk, directory, WholeName(name));
    case ByObject(cluster, slot) =>
      if ClusterInRange(v.g, cluster) {
        Directory.ScanErrors(RecordsOf(disk, v.g, cluster));
      }
  }

  lemma SearchedErrors(v: Volume, fat: seq<u32>, disk: Disk, directory: nat, q: Query)
    requires v.Holds(disk) && |fat| == v.g.fatSectors * ENTRIES_PER_SECTOR
    ensures match Searched(v, fat, disk, directory, q)
            case Failure(error) => !error.FromBelow()
            case Success(_) => ClusterInRange(v.g, directory)
  {
    hide ChainFrom, SearchIn;
    if ClusterInRange(v.g, directory) {
      ChainErrors(fat, v.g.Entries(), directory);
      if ChainFrom(fat, v.g.Entries(), directory).Success? {
        SearchErrors(v, disk, ChainFrom(fat, v.g.Entries(), directory).value, q);
      }
    }
  }

  const SCAN_ERRORS := {Corrupt, Protocol, AlreadyExists}

  lemma ChainErrors(fat: seq<u32>, n: nat, start: u32)
    requires n <= |fat|
    ensures ChainFrom(fat, n, start).Failure? ==>
            ChainFrom(fat, n, start).error in {InvalidArgument, NoSpace, Corrupt, Protocol}
  {}

  lemma {:induction false} SearchErrors(v: Volume, disk: Disk, cs: seq<u32>, q: Query)
    requires v.Holds(disk)
    ensures SearchIn(v, disk, cs, q).Failure? ==> SearchIn(v, disk, cs, q).error in SCAN_ERRORS
  {
    hide Directory.Scan, DirSlots, Earliest;
    if cs != [] && cs[0] in v.dirs {
      Directory.ScanErrors(DirSlots(v, disk, cs[0]));
      SearchErrors(v, disk, cs[1..], q);
    }
  }

  // ----- what the answers mean in a directory that can be scanned -------------------------------------

  /** The directory has this chain, the service can list it, and every cluster of it scans. */
  ghost predicate Listable(v: Volume, fat: seq<u32>, disk: Disk, directory: nat, cs: seq<u32>) {
    && v.Holds(disk) && |fat| == v.g.fatSectors * ENTRIES_PER_SECTOR && ClusterInRange(v.g, directory)
    && IsChain(fat, v.g.Entries(), directory, cs) && |cs| <= MAX_CLUSTERS
    && forall i :: 0 <= i < |cs| ==> Scans(v, disk, cs[i])
  }

  /** Some entry of the directory is one that the query asks for. */
  ghost predicate Present(v: Volume, disk: Disk, cs: seq<u32>, q: Query)
    requires v.Holds(disk)
  {
    exists f: Found :: f.cluster in cs && Shown(v, disk, f) && Hit(q, f)
  }

  lemma {:induction false} EarliestFinds(q: Query, c: nat, entries: seq<Directory.Entry>)
    ensures match Earliest(q, c, entries)
            case Some(f) => f.cluster == c && f.entry in entries && Hit(q, f)
            case None => forall e :: e in entries ==> !Hit(q, Found(c, e))
  {
    hide Hit;
    if entries != [] {
      EarliestFinds(q, c, entries[1..]);
      assert entries == [entries[0]] + entries[1..];
    }
  }

  lemma {:induction false} SearchFinds(v: Volume, disk: Disk, cs: seq<u32>, q: Query)
    requires v.Holds(disk) && forall i :: 0 <= i < |cs| ==> Scans(v, disk, cs[i])
    ensures SearchIn(v, disk, cs, q).Success?
    ensures match SearchIn(v, disk, cs, q).value
            case Some(f) => f.cluster in cs && Shown(v, disk, f) && Hit(q, f)
            case None => !Present(v, disk, cs, q)
  {
    hide Hit, Directory.Scan, DirSlots, Earliest;
    if cs != [] {
      assert Scans(v, disk, cs[0]) && cs == [cs[0]] + cs[1..];
      EarliestFinds(q, cs[0], Directory.Scan(DirSlots(v, disk, cs[0])).value);
      SearchFinds(v, disk, cs[1..], q);
    }
  }

  lemma SearchedFinds(v: Volume, fat: seq<u32>, disk: Disk, directory: nat, cs: seq<u32>, q: Query)
    requires Listable(v, fat, disk, directory, cs)
    ensures ChainFrom(fat, v.g.Entries(), directory) == Success(cs)
    ensures Searched(v, fat, disk, directory, q).Success?
    ensures Searched(v, fat, disk, directory, q).value.Some? <==> Present(v, disk, cs, q)
    ensures match Searched(v, fat, disk, directory, q).value
            case Some(f) => f.cluster in cs && Shown(v, disk, f) && Hit(q, f)
            case None => true
  {
    hide Shown, Hit, IsChain;
    ChainIs(fat, v.g.Entries(), directory, cs);
    SearchFinds(v, disk, cs, q);
  }

  /** Some entry of the directory, not a dot entry, has this name. */
  ghost predicate Lists(v: Volume, disk: Disk, cs: seq<u32>, name: Name)
    requires v.Holds(disk)
  {
    exists f: Found :: f.cluster in cs && Shown(v, disk, f)
      && f.entry.kind != Directory.Internal && f.entry.primary.name == name
  }

  /** Some entry of the directory, not a dot entry and not the one given, has these eight base bytes. */
  ghost predicate ListsBase(v: Volume, disk: Disk, cs: seq<u32>, base: seq<Byte>, but: Option<Found>)
    requires v.Holds(disk)
  {
    exists f: Found :: f.cluster in cs && Shown(v, disk, f) && Some(f) != but
      && f.entry.kind != Directory.Internal && f.entry.primary.name[..8] == base
  }

  lemma ListsIsPresent(v: Volume, disk: Disk, cs: seq<u32>, name: Name)
    requires v.Holds(disk)
    ensures Lists(v, disk, cs, name) <==> Present(v, disk, cs, WholeName(name))
    ensures ListsBase(v, disk, cs, name[..8], None) <==> Present(v, disk, cs, BaseName(name, None))
  {
    hide Shown;
    forall f: Found ensures Hit(WholeName(name), f) <==>
                            f.entry.kind != Directory.Internal && f.entry.primary.name == name {}
    forall f: Found ensures Hit(BaseName(name, None), f) <==>
                            f.entry.kind != Directory.Internal && f.entry.primary.name[..8] == name[..8] {}
  }

  /** Some cluster of the directory has two free neighbouring slots. */
  ghost predicate HasPlace(v: Volume, disk: Disk, cs: seq<u32>)
    requires v.Holds(disk) && forall i :: 0 <= i < |cs| ==> cs[i] in v.dirs
  {
    exists k, i :: 0 <= k < |cs| && 0 <= i && i + 1 < 128 && Directory.PairFree(DirSlots(v, disk, cs[k]), i)
  }

  lemma PlaceIsFreePair(v: Volume, disk: Disk, cs: seq<u32>)
    requires v.Holds(disk) && forall i :: 0 <= i < |cs| ==> cs[i] in v.dirs
    ensures HasPlace(v, disk, cs) <==> HasFreePair(v, disk, cs)
  {
    hide Directory.PairFree, DirSlots;
    forall k | 0 <= k < |cs| ensures Packed(v, disk, cs[k]) <==>
      forall i :: 0 <= i && i + 1 < SLOTS ==> !Directory.PairFree(DirSlots(v, disk, cs[k]), i) {}
  }

  /** A create is refused exactly when the base name is taken, and else when no slot pair is free. */
  lemma CreateAnswers(v: Volume, fat: seq<u32>, disk: Disk, directory: nat, cs: seq<u32>, name: Name)
    requires Listable(v, fat, disk, directory, cs)
    ensures forall i :: 0 <= i < |cs| ==> cs[i] in v.dirs
    ensures CreateAnswer(v, fat, disk, directory, name) ==
            if ListsBase(v, disk, cs, name[..8], None) then AlreadyExists
            else if HasPlace(v, disk, cs) then Ok else NoSpace
  {
    ListsIsPresent(v, disk, cs, name);
    assert forall i :: 0 <= i < |cs| ==> Scans(v, disk, cs[i]);
    PlaceIsFreePair(v, disk, cs);
    hide Searched, Present, HasFreePair, HasPlace, Listable, ListsBase;
    SearchedFinds(v, fat, disk, directory, cs, BaseName(name, None));
  }

  /** A name is not found exactly when no entry has it, and what is found has it. */
  lemma LocateAnswers(v: Volume, fat: seq<u32>, disk: Disk, directory: nat, cs: seq<u32>, name: Name)
    requires Listable(v, fat, disk, directory, cs)
    ensures var located := Located(v, fat, disk, ByName(directory, name));
      && (located == Failure(NotFound) <==> !Lists(v, disk, cs, name))
      && (located.Success? <==> Lists(v, disk, cs, name))
      && (located.Success? ==> Shown(v, disk, located.value) && located.value.entry.primary.name == name)
  {
    ListsIsPresent(v, disk, cs, name);
    hide Searched, Present, Listable, Shown, Lists;
    SearchedFinds(v, fat, disk, directory, cs, WholeName(name));
  }

  /** An operation on a file finds it by name exactly when the entry of that name is a regular file. */
  lemma FileAnswers(v: Volume, fat: seq<u32>, disk: Disk, directory: nat, cs: seq<u32>, name: Name)
    requires Listable(v, fat, disk, directory, cs)
    ensures var located := LocatedFile(v, fat, disk, ByName(directory, name));
      match located
      case Success(f) =>
        f.cluster in cs && Shown(v, disk, f) && f.entry.kind == Directory.Regular && f.entry.primary.name == name
      case Failure(error) =>
        if !Lists(v, disk, cs, name) then error == NotFound
        else
          && error == InvalidArgument
          && exists f: Found :: f.cluster in cs && Shown(v, disk, f)
               && f.entry.kind == Directory.Subdirectory && f.entry.primary.name == name
  {
    ListsIsPresent(v, disk, cs, name);
    hide Searched, Present, Listable, Shown, Lists;
    SearchedFinds(v, fat, disk, directory, cs, WholeName(name));
  }

  /**
    By its place: an impossible place is an invalid argument, a cluster that cannot be scanned gives the error
    of the scan, and otherwise the file is found exactly when the scan meets a regular file's primary there.
  */
  lemma ObjectAnswers(v: Volume, fat: seq<u32>, disk: Disk, cluster: nat, slot: nat)
    requires v.Holds(disk) && |fat| == v.g.fatSectors * ENTRIES_PER_SECTOR
    ensures var located := LocatedFile(v, fat, disk, ByObject(cluster, slot));
      if !ClusterInRange(v.g, cluster) || slot >= 128 then located == Failure(InvalidArgument)
      else
        match Directory.Scan(RecordsOf(disk, v.g, cluster))
        case Failure(error) => located == Failure(error) && error in {Corrupt, Protocol, AlreadyExists}
        case Success(entries) =>
          match located
          case Success(f) =>
            && f.cluster == cluster && f.entry in entries
            && f.entry.kind == Directory.Regular && f.entry.primarySlot == slot
          case Failure(error) =>
            && error == NotFound
            && forall e :: e in entries ==> e.kind != Directory.Regular || e.primarySlot != slot
  {
    hide Directory.Scan, RecordsOf;
    if ClusterInRange(v.g, cluster) && slot < SLOTS {
      Directory.ScanErrors(RecordsOf(disk, v.g, cluster));
      match Directory.Scan(RecordsOf(disk, v.g, cluster))
      case Failure(_) =>
      case Success(entries) => ObjectInIs(cluster, entries, slot);
    }
  }

  lemma {:induction false} ObjectInIs(c: nat, entries: seq<Directory.Entry>, slot: nat)
    ensures match ObjectIn(c, entries, slot)
            case Some(f) =>
              f.cluster == c && f.entry in entries && f.entry.kind == Directory.Regular && f.entry.primarySlot == slot
            case None => forall e :: e in entries ==> e.kind != Directory.Regular || e.primarySlot != slot
  {
    if entries != [] {
      ObjectInIs(c, entries[1..], slot);
      assert entries == [entries[0]] + entries[1..];
    }
  }

  /** How a search by name fails: at the first cluster that cannot be scanned, unless a hit comes before it. */
  lemma {:induction false} SearchFails(v: Volume, disk: Disk, cs: seq<u32>, q: Query)
    requires v.Holds(disk) && forall i :: 0 <= i < |cs| ==> cs[i] in v.dirs
    ensures SearchIn(v, disk, cs, q).Failure? <==>
            exists k :: 0 <= k < |cs| && !Scans(v, disk, cs[k]) && forall j :: 0 <= j < k ==> Misses(v, disk, cs[j], q)
  {
    hide Hit, Directory.Scan, DirSlots, Earliest;
    if cs != [] {
      var rest := cs[1..];
      assert cs == [cs[0]] + rest;
      if Scans(v, disk, cs[0]) {
        EarliestFinds(q, cs[0], Directory.Scan(DirSlots(v, disk, cs[0])).value);
        SearchFails(v, disk, rest, q);
        if Misses(v, disk, cs[0], q) {
          forall k | 0 <= k < |rest| && !Scans(v, disk, rest[k])
                     && forall j :: 0 <= j < k ==> Misses(v, disk, rest[j], q)
            ensures !Scans(v, disk, cs[k + 1]) && forall j :: 0 <= j < k + 1 ==> Misses(v, disk, cs[j], q)
          {
            forall j | 0 <= j < k + 1 ensures Misses(v, disk, cs[j], q) {
              assert j > 0 ==> cs[j] == rest[j - 1];
            }
          }
          forall k | 0 <= k < |cs| && !Scans(v, disk, cs[k]) && forall j :: 0 <= j < k ==> Misses(v, disk, cs[j], q)
            ensures k > 0 && !Scans(v, disk, rest[k - 1]) && forall j :: 0 <= j < k - 1 ==> Misses(v, disk, rest[j], q)
          {
            assert forall j :: 0 <= j < k - 1 ==> rest[j] == cs[j + 1];
          }
        }
      }
    }
  }

  /** A file's own place holds nothing but the file. */
  lemma OwnPlace(v: Volume, disk: Disk, f: Found, other: Found)
    requires v.Holds(disk) && Shown(v, disk, f) && f.entry.kind == Directory.Regular && Shown(v, disk, other)
    requires other.cluster == f.cluster && other.entry.primarySlot == f.entry.primarySlot
    ensures other == f
  {
    hide Directory.Scan, DirSlots, PairAt, OnTheWay;
    FoundPair(v, disk, f);
    PrimarySlotsDiffer(v, disk, PairSlot(f), f.entry.primary);
    ShownIsPair(v, disk, f);
  }

  lemma ShownIsPair(v: Volume, disk: Disk, f: Found)
    requires v.Holds(disk) && Shown(v, disk, f) && f.entry.kind == Directory.Regular
    ensures f.entry == DirectoryChange.FileEntry(f.entry.primary, PairSlot(f).index)
  {
    FoundPair(v, disk, f);
  }

  /**
    A rename is refused exactly when some other entry has the new base name; to keep one's name is always
    granted, even where another entry shares it.
  */
  lemma RenameAnswers(v: Volume, fat: seq<u32>, disk: Disk, f: Found, cs: seq<u32>, name: Name)
    requires Listable(v, fat, disk, f.cluster, cs)
    requires Shown(v, disk, f) && f.entry.kind == Directory.Regular
    ensures RenameAnswer(v, fat, disk, f, name) ==
            if f.entry.primary.name != name && ListsBase(v, disk, cs, name[..8], Some(f)) then AlreadyExists else Ok
  {
    hide Searched, Shown, IsChain, Scans, Hit;
    SearchedFinds(v, fat, disk, f.cluster, cs, WholeName(name));
    SearchedFinds(v, fat, disk, f.cluster, cs, BaseName(name, Some(f)));
    OthersBase(v, disk, f, cs, name);
    ListsIsPresent(v, disk, cs, name);
    if f.entry.primary.name == name {
      assert f.cluster == cs[0] by {
        ChainStart(fat, v.g.Entries(), f.cluster, cs);
      }
      assert Lists(v, disk, cs, name);
    } else {
      var hit := Searched(v, fat, disk, f.cluster, WholeName(name)).value;
      if hit.Some? {
        NameHasBase(name, hit.value);
      }
    }
  }

  lemma ChainStart(fat: seq<u32>, n: nat, start: u32, cs: seq<u32>)
    requires n <= |fat| && IsChain(fat, n, start, cs)
    ensures cs != [] && cs[0] == start
  {}

  lemma NameHasBase(name: Name, f: Found)
    requires Hit(WholeName(name), f)
    ensures f.entry.kind != Directory.Internal && f.entry.primary.name[..8] == name[..8]
    ensures f.entry.primary.name == name
  {}

  /** The entries other than the file itself are those at another place. */
  lemma OthersBase(v: Volume, disk: Disk, f: Found, cs: seq<u32>, name: Name)
    requires v.Holds(disk) && Shown(v, disk, f) && f.entry.kind == Directory.Regular
    ensures ListsBase(v, disk, cs, name[..8], Some(f)) <==> Present(v, disk, cs, BaseName(name, Some(f)))
  {
    hide Shown;
    forall other: Found | Shown(v, disk, other)
      ensures Hit(BaseName(name, Some(f)), other) <==>
              Some(other) != Some(f) && other.entry.kind != Directory.Internal
              && other.entry.primary.name[..8] == name[..8]
    {
      if other.cluster == f.cluster && other.entry.primarySlot == f.entry.primarySlot {
        OwnPlace(v, disk, f, other);
      }
    }
  }

  // ----- what the answers mean for a file whose chain is sound ------------------------------------------

  /** So many bytes find room in free clusters, no cluster twice and no more than 256 of them. */
  ghost predicate Room(fat: seq<u32>, n: nat, size: nat)
    requires n <= |fat|
  {
    exists cs: seq<u32> :: IsRoom(fat, n, size, cs)
  }

  ghost predicate IsRoom(fat: seq<u32>, n: nat, size: nat, cs: seq<u32>)
    requires n <= |fat|
  {
    && |cs| <= 256 && size <= |cs| * 4096
    && (forall i, j :: 0 <= i < j < |cs| ==> cs[i] != cs[j])
    && forall i :: 0 <= i < |cs| ==> 2 <= cs[i] < n && fat[cs[i]] == 0
  }

  lemma RoomFits(fat: seq<u32>, n: nat, size: nat, cs: seq<u32>)
    requires n <= |fat| && ValidEntryCount(n) && IsRoom(fat, n, size, cs)
    ensures |cs| <= |FreeClusters(fat, n)|
  {
    var free := FreeClusters(fat, n);
    FreeFromFacts(fat, n, 2);
    DistinctCount(cs);
    DistinctCount(free);
    assert Elements(cs) <= Elements(free);
    SubsetSize(Elements(cs), Elements(free));
  }

  lemma FreeIsRoom(fat: seq<u32>, n: nat, size: nat, count: nat)
    requires n <= |fat| && ValidEntryCount(n) && count <= |FreeClusters(fat, n)| && count <= 256 && size <= count * 4096
    ensures IsRoom(fat, n, size, FreeClusters(fat, n)[..count])
  {
    FreeFromFacts(fat, n, 2);
  }

  lemma RoomIsCounted(fat: seq<u32>, n: nat, size: nat)
    requires n <= |fat| && ValidEntryCount(n)
    ensures Room(fat, n, size) <==>
            size <= 256 * 4096 && (size + CLUSTER_BYTES - 1) / CLUSTER_BYTES <= |FreeClusters(fat, n)|
  {
    hide IsRoom;
    var count := (size + CLUSTER_BYTES - 1) / CLUSTER_BYTES;
    if size <= 256 * 4096 && count <= |FreeClusters(fat, n)| {
      FreeIsRoom(fat, n, size, count);
    }
    forall cs: seq<u32> | IsRoom(fat, n, size, cs)
      ensures |cs| <= 256 && size <= |cs| * 4096 && |cs| <= |FreeClusters(fat, n)|
    {
      RoomSizes(fat, n, size, cs);
      RoomFits(fat, n, size, cs);
    }
  }

  lemma RoomSizes(fat: seq<u32>, n: nat, size: nat, cs: seq<u32>)
    requires n <= |fat| && IsRoom(fat, n, size, cs)
    ensures |cs| <= 256 && size <= |cs| * 4096
  {}

  /** A chain that exists and is too long for the workspace runs out of space. */
  lemma LongChainIsNoSpace(fat: seq<u32>, n: nat, start: u32, cs: seq<u32>)
    requires n <= |fat| && ValidEntryCount(n) && IsChain(fat, n, start, cs) && |cs| > 256
    ensures ChainFrom(fat, n, start) == Failure(NoSpace)
  {
    var path := cs[..257];
    assert IsPath(fat, n, start, path) by {
      forall i, j | 0 <= i && j == i + 1 && j < |path| ensures Steps(fat, n, path[i], path[j]) {
        assert Steps(fat, n, cs[i], cs[j]);
      }
    }
    assert Overruns(fat, n, start, MAX_CLUSTERS);
    OverrunDoesNotFit(fat, n, start, MAX_CLUSTERS);
  }

  /** The chain of a sound file is listed exactly when it has at most 256 clusters. */
  lemma FileChainAnswers(v: Volume, fat: seq<u32>, p: Primary, chain: seq<u32>)
    requires v.g.Valid() && |fat| == v.g.fatSectors * ENTRIES_PER_SECTOR && Backs(fat, v.g, p, chain)
    requires p.firstCluster != 0 ==> p.fileSize != 0
    ensures FileChain(v, fat, p) == if |chain| <= 256 then Success(chain) else Failure(NoSpace)
  {
    if p.fileSize != 0 {
      if |chain| <= 256 {
        ChainIs(fat, v.g.Entries(), p.firstCluster, chain);
      } else {
        LongChainIsNoSpace(fat, v.g.Entries(), p.firstCluster, chain);
      }
    }
  }

  /**
    To replace or extend a sound file is granted exactly when its chain can be listed and the new content finds
    room beside the old; there is no other refusal than lack of space.
  */
  lemma SaveAnswers(v: Volume, fat: seq<u32>, p: Primary, chain: seq<u32>, bytes: seq<Byte>, append: bool)
    requires v.g.Valid() && |fat| == v.g.fatSectors * ENTRIES_PER_SECTOR && Backs(fat, v.g, p, chain)
    requires p.firstCluster != 0 ==> p.fileSize != 0
    ensures SaveAnswer(v, fat, p, bytes, append) ==
            if |chain| <= 256 && Room(fat, v.g.Entries(), |bytes| + if append then p.fileSize else 0) then Ok
            else NoSpace
  {
    hide FileChain, Backs, Room;
    FileChainAnswers(v, fat, p, chain);
    RoomIsCounted(fat, v.g.Entries(), |bytes| + if append then p.fileSize else 0);
  }

  /** A sound file, an empty one included, is deleted exactly when its chain can be listed. */
  lemma DeleteAnswers(v: Volume, fat: seq<u32>, p: Primary, chain: seq<u32>)
    requires v.g.Valid() && |fat| == v.g.fatSectors * ENTRIES_PER_SECTOR && Backs(fat, v.g, p, chain)
    requires p.firstCluster != 0 ==> p.fileSize != 0
    ensures DeleteAnswer(v, fat, p) == if |chain| <= 256 then Ok else NoSpace
  {
    FileChainAnswers(v, fat, p, chain);
  }
}
