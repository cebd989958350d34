/**
  What a directory cluster is: files, subdirectories, dot entries and deleted slots laid one behind the other
  by their encodings, up to an end mark; and that the scan reads back exactly what was laid.
*/
module DirectoryLayout {
  import opened Bytes
  import opened Status
  import opened Crc32
  import opened Records
  import opened Directory
  import FatChain

  const DOT_NAME: Name := [0x2e, 0x20, 0x20, 0x20, 0x20, 0x20, 0x20, 0x20, 0x20, 0x20, 0x20]
  const DOT_DOT_NAME: Name := [0x2e, 0x2e, 0x20, 0x20, 0x20, 0x20, 0x20, 0x20, 0x20, 0x20, 0x20]

  datatype Piece =
    | File(file: Primary)
    | Folder(folder: Primary)
    | Dots(dots: Primary)
    | Deleted(record: Record)
  {
    predicate Sound() {
      match this
      case File(p) => Encodable(p) && p.attributes == 0x20
      case Folder(p) => Encodable(p) && p.attributes == 0x10
      case Dots(p) =>
        && (p.name == DOT_NAME || p.name == DOT_DOT_NAME) && p.attributes == 0x10 && p.fileSize == 0
        && 2 <= p.firstCluster <= FatChain.MAX_DATA_CLUSTER
      case Deleted(r) => r[0] == 0xe5
    }

    /** The slots that the piece takes. */
    function Slots(): seq<Record> {
      match this
      case File(p) => [CompanionBytes(p.name, true), PrimaryBytes(p)]
      case Folder(p) => [PrimaryBytes(p)]
      case Dots(p) => [PrimaryBytes(p)]
      case Deleted(r) => [r]
    }

    /** What a scan reports of the piece when it lies at slot `at`. */
    function Reported(at: nat): seq<Entry> {
      match this
      case File(p) => [Entry(p, at + 1, Some(at), Regular)]
      case Folder(p) => [Entry(p, at, None, Subdirectory)]
      case Dots(p) => [Entry(p, at, None, Internal)]
      case Deleted(_) => []
    }
  }

  /** The pieces, one behind the other. */
  function Laid(pieces: seq<Piece>): (slots: seq<Record>) {
    if pieces == [] then [] else pieces[0].Slots() + Laid(pieces[1..])
  }

  /** What a scan reports of the pieces when the first lies at slot `at`. */
  function ReportedFrom(pieces: seq<Piece>, at: nat): seq<Entry> {
    if pieces == [] then [] else pieces[0].Reported(at) + ReportedFrom(pieces[1..], at + |pieces[0].Slots()|)
  }

  predicate AllSound(pieces: seq<Piece>) {
    forall i :: 0 <= i < |pieces| ==> pieces[i].Sound()
  }

  /** Whatever follows the pieces begins with an end mark. */
  predicate Ended(tail: seq<Record>) {
    tail != [] ==> tail[0][0] == 0
  }

  /** No two files or folders have the same name. */
  ghost predicate NamesApart(entries: seq<Entry>) {
    forall i, j :: 0 <= i < j < |entries| && entries[i].kind != Internal && entries[j].kind != Internal ==>
      entries[i].primary.name != entries[j].primary.name
  }

  // ----- one piece ----------------------------------------------------------------------------------

  lemma DotNames(name: Name)
    ensures IsInternalName(name) <==> name == DOT_NAME || name == DOT_DOT_NAME
  {
    if IsInternalName(name) {
      if name[1] == DOT {
        assert forall i :: 2 <= i < 11 ==> name[i] == name[2..][i - 2];
        assert name == DOT_DOT_NAME;
      } else {
        assert forall i :: 1 <= i < 11 ==> name[i] == name[1..][i - 1];
        assert name == DOT_NAME;
      }
    }
  }

  lemma StoredIsNoDot(name: Name)
    requires ValidStoredName(name)
    ensures !IsInternalName(name)
  {
    assert name[..8][0] == name[0];
  }

  lemma DotsDecode(p: Primary)
    requires Dots(p).Sound()
    ensures DecodeInternal(PrimaryBytes(p)) == Success(p) && PrimaryBytes(p)[..11] == p.name
  {
    var r := PrimaryBytes(p);
    DotNames(p.name);
    assert r[..11] == p.name && r[11] == p.attributes;
    assert r[20..22] == WriteLe16(p.firstCluster / 0x1_0000);
    assert r[26..28] == WriteLe16(p.firstCluster % 0x1_0000);
    assert r[28..32] == WriteLe32(0);
    assert AllZero(r[12..20]) && AllZero(r[22..26]) && AllZero(r[28..32]);
  }

  lemma DotsCanonical(r: Record)
    requires DecodeInternal(r).Success?
    ensures Dots(DecodeInternal(r).value).Sound() && PrimaryBytes(DecodeInternal(r).value) == r
  {
    var p := DecodeInternal(r).value;
    DotNames(r[..11]);
    var high, low := ReadLe16(r[20..22]), ReadLe16(r[26..28]);
    assert p.firstCluster / 0x1_0000 == high && p.firstCluster % 0x1_0000 == low;
    ReadLe16Injective(WriteLe16(high), r[20..22]);
    ReadLe16Injective(WriteLe16(low), r[26..28]);
    assert WriteLe32(0) == [0, 0, 0, 0] == r[28..32];
    assert r[12..20] == Zeros(8) && r[22..26] == Zeros(4);
    assert r == r[..11] + [r[11]] + r[12..20] + r[20..22] + r[22..26] + r[26..28] + r[28..32];
  }

  /** A record that the scan takes for the first half of a file is the committed companion of that file. */
  lemma PairCanonical(companion: Record, primary: Record)
    requires ValidatePair(companion, primary) == Ok
    ensures var p := DecodePrimary(primary).value;
      DecodePrimary(primary).Success? && File(p).Sound() && [companion, primary] == File(p).Slots()
  {
    PrimaryCanonical(primary);
    var p := DecodePrimary(primary).value;
    var body := CompanionBody(p.name, true);
    assert companion[8..16] == HashText(Extension(p.name));
    assert Cleared(companion, CRC_AT) == Cleared(body, CRC_AT) by {
      BodyDetermined(companion, body, p.name);
    }
    SealIsUnique(companion, body, CRC_AT);
  }

  lemma BodyDetermined(r: Record, body: Record, name: Name)
    requires DecodeCompanion(r) ==
             Success(Companion(true, |Extension(name)|, NameChecksum(name), HashText(Extension(name))))
    requires body == CompanionBody(name, true)
    ensures Cleared(r, CRC_AT) == Cleared(body, CRC_AT)
  {
    hide Sealed, HashText, NameChecksum, Extension;
    assert r[8..16] == body[8..16];
    assert r[6..8] == body[6..8] && r[20..32] == body[20..32] == Zeros(12);
    assert r[..6] == body[..6];
    assert r[..16] == r[..6] + r[6..8] + r[8..16] == body[..16];
  }

  /** How the scan sees the slot where a piece begins. */
  lemma PieceCell(slots: seq<Record>, i: nat, piece: Piece)
    requires piece.Sound() && i + |piece.Slots()| <= |slots| && slots[i..i + |piece.Slots()|] == piece.Slots()
    ensures CellAt(slots, i) == if piece.Deleted? then Hole else Item(piece.Reported(i)[0])
  {
    hide Encodable, CompanionBytes, PrimaryBytes;
    var own := piece.Slots();
    assert slots[i] == own[0];
    match piece {
      case File(p) =>
        assert slots[i + 1] == own[1];
        FileFirst(p);
        CommittedPairReads(p);
      case Folder(p) =>
        PrimaryRoundTrip(p);
        PrimaryFirstByte(p);
        NameOf(p);
      case Dots(p) =>
        DotsDecode(p);
        DotNames(p.name);
        assert slots[i][..11][0] == slots[i][0];
      case Deleted(_) =>
    }
  }

  lemma FileFirst(p: Primary)
    ensures CompanionBytes(p.name, true)[0] == COMPANION_TYPE
  {}

  lemma NameOf(p: Primary)
    requires Encodable(p)
    ensures PrimaryBytes(p)[..11] == p.name && !IsInternalName(p.name)
  {
    StoredIsNoDot(p.name);
  }

  /** A slot that the scan accepts is where some piece begins. */
  lemma CellPiece(slots: seq<Record>, i: nat) returns (piece: Piece)
    requires i < |slots| && (CellAt(slots, i).Hole? || CellAt(slots, i).Item?)
    ensures piece.Sound() && i + |piece.Slots()| <= |slots| && slots[i..i + |piece.Slots()|] == piece.Slots()
    ensures CellAt(slots, i) == if piece.Deleted? then Hole else Item(piece.Reported(i)[0])
  {
    hide Encodable, CompanionBytes, PrimaryBytes, DecodePrimary, DecodeInternal, ValidatePair;
    if slots[i][0] == DELETED {
      piece := Deleted(slots[i]);
    } else if slots[i][0] == COMPANION_TYPE {
      PairCanonical(slots[i], slots[i + 1]);
      piece := File(DecodePrimary(slots[i + 1]).value);
      assert slots[i..i + 2] == [slots[i], slots[i + 1]];
    } else if IsInternalName(slots[i][..11]) {
      DotsCanonical(slots[i]);
      piece := Dots(DecodeInternal(slots[i]).value);
    } else {
      PrimaryCanonical(slots[i]);
      piece := Folder(DecodePrimary(slots[i]).value);
    }
  }

  // ----- whole clusters -----------------------------------------------------------------------------

  /** No name of `more` is that of an entry found before, and none comes twice. */
  ghost predicate FreshNames(found: seq<Entry>, more: seq<Entry>) {
    forall i :: 0 <= i < |more| ==> !Named(found + more[..i], more[i].primary.name)
  }

  lemma FreshStep(found: seq<Entry>, e: Entry, rest: seq<Entry>)
    ensures FreshNames(found, [e] + rest) <==> !Named(found, e.primary.name) && FreshNames(found + [e], rest)
  {
    hide Named;
    var more := [e] + rest;
    assert found + more[..0] == found;
    forall i | 0 <= i < |rest| ensures found + more[..i + 1] == found + [e] + rest[..i] && more[i + 1] == rest[i] {}
    if FreshNames(found, more) {
      forall i | 0 <= i < |rest| ensures !Named(found + [e] + rest[..i], rest[i].primary.name) {
        assert !Named(found + more[..i + 1], more[i + 1].primary.name);
      }
    }
    if !Named(found, e.primary.name) && FreshNames(found + [e], rest) {
      forall i | 0 <= i < |more| ensures !Named(found + more[..i], more[i].primary.name) {
        if i > 0 {
          assert !Named(found + [e] + rest[..i - 1], rest[i - 1].primary.name);
        }
      }
    }
  }

  /** The scan from slot `i` on, where these pieces lie. */
  lemma {:induction false} ScanOfPieces(slots: seq<Record>, i: nat, pieces: seq<Piece>, tail: seq<Record>,
                                        found: seq<Entry>)
    requires i <= |slots| && slots[i..] == Laid(pieces) + tail && AllSound(pieces) && Ended(tail)
    ensures ScanFrom(Cells(slots), i, found) ==
            if FreshNames(found, ReportedFrom(pieces, i)) then Success(found + ReportedFrom(pieces, i))
            else Failure(AlreadyExists)
    decreases |pieces|
  {
    hide CellAt, FreshNames, Named, Piece.Slots, Piece.Reported, Piece.Sound;
    if pieces == [] {
      NothingFresh(found);
      assert found + [] == found && slots[i..] == tail;
      if i < |slots| {
        assert slots[i..][0] == slots[i];
        EndCell(slots, i);
      }
    } else {
      var piece, rest, k := pieces[0], pieces[1..], |pieces[0].Slots()|;
      LaidFrom(slots, i, pieces, tail);
      PieceCell(slots, i, piece);
      PieceSizes(piece, i);
      if piece.Deleted? {
        assert piece.Reported(i) + ReportedFrom(rest, i + k) == ReportedFrom(rest, i + k);
        ScanOfPieces(slots, i + 1, rest, tail, found);
      } else {
        var e := piece.Reported(i)[0];
        assert piece.Reported(i) == [e];
        FreshStep(found, e, ReportedFrom(rest, i + k));
        if !Named(found, e.primary.name) {
          ScanOfPieces(slots, i + k, rest, tail, found + [e]);
          assert found + [e] + ReportedFrom(rest, i + k) == found + ReportedFrom(pieces, i);
        }
      }
    }
  }

  lemma PieceSizes(piece: Piece, i: nat)
    ensures |piece.Slots()| == if piece.File? then 2 else 1
    ensures if piece.Deleted? then piece.Reported(i) == []
            else |piece.Reported(i)| == 1 && After(i, piece.Reported(i)[0]) == i + |piece.Slots()|
  {
    hide CompanionBytes, PrimaryBytes;
  }

  lemma Joined(slots: seq<Record>, i: nat, a: seq<Record>, b: seq<Record>)
    requires i <= |slots| && slots[i..] == a + b
    ensures i + |a| <= |slots| && slots[i..i + |a|] == a && slots[i + |a|..] == b
  {
    assert slots[i..][..|a|] == a && slots[i..][|a|..] == b;
  }

  lemma LaidFrom(slots: seq<Record>, i: nat, pieces: seq<Piece>, tail: seq<Record>)
    requires i <= |slots| && slots[i..] == Laid(pieces) + tail && pieces != []
    ensures var own := pieces[0].Slots();
      i + |own| <= |slots| && slots[i..i + |own|] == own && slots[i + |own|..] == Laid(pieces[1..]) + tail
  {
    hide Piece.Slots;
    var own, rest := pieces[0].Slots(), Laid(pieces[1..]);
    assert (own + rest) + tail == own + (rest + tail);
    hide Laid;
    Joined(slots, i, own, rest + tail);
  }

  lemma EndCell(slots: seq<Record>, i: nat)
    requires i < |slots| && slots[i][0] == 0
    ensures CellAt(slots, i) == End
  {}

  lemma NothingFresh(found: seq<Entry>)
    ensures FreshNames(found, [])
  {}

  /** A scan that succeeds has met pieces and nothing else. */
  lemma {:induction false} PiecesOfScan(slots: seq<Record>, i: nat, found: seq<Entry>)
    returns (pieces: seq<Piece>, tail: seq<Record>)
    requires i <= |slots| && ScanFrom(Cells(slots), i, found).Success?
    ensures slots[i..] == Laid(pieces) + tail && AllSound(pieces) && Ended(tail)
    decreases |slots| - i
  {
    hide CellAt, Named, Piece.Slots, Piece.Reported, Piece.Sound, AllSound, Ended;
    pieces, tail := [], slots[i..];
    NothingIsLaid(slots);
    if i < |slots| {
      if CellAt(slots, i) == End {
        EndIsMark(slots, i);
      } else {
        var piece := CellPiece(slots, i);
        PieceSizes(piece, i);
        var k, rest := |piece.Slots()|, [];
        var more := if piece.Deleted? then found else found + [piece.Reported(i)[0]];
        assert ScanFrom(Cells(slots), i, found) == ScanFrom(Cells(slots), i + k, more);
        rest, tail := PiecesOfScan(slots, i + k, more);
        PiecesJoin(slots, i, piece, rest, tail);
        pieces := [piece] + rest;
      }
    }
  }

  lemma PiecesJoin(slots: seq<Record>, i: nat, piece: Piece, rest: seq<Piece>, tail: seq<Record>)
    requires piece.Sound() && AllSound(rest) && i + |piece.Slots()| <= |slots|
    requires slots[i..i + |piece.Slots()|] == piece.Slots() && slots[i + |piece.Slots()|..] == Laid(rest) + tail
    ensures slots[i..] == Laid([piece] + rest) + tail && AllSound([piece] + rest)
  {
    hide Piece.Slots, Piece.Sound;
    var k, all := |piece.Slots()|, [piece] + rest;
    assert slots[i..] == slots[i..i + k] + slots[i + k..];
    assert all[0] == piece && all[1..] == rest;
    forall j | 0 <= j < |all| ensures all[j].Sound() {
      assert j > 0 ==> all[j] == rest[j - 1];
    }
  }

  lemma EndIsMark(slots: seq<Record>, i: nat)
    requires i < |slots| && CellAt(slots, i) == End
    ensures Ended(slots[i..]) && slots[i..] == Laid([]) + slots[i..] && AllSound([])
  {}

  lemma NothingIsLaid(slots: seq<Record>)
    ensures Ended(slots[|slots|..]) && slots[|slots|..] == Laid([]) + slots[|slots|..] && AllSound([])
  {}

  /** The names of what is reported of sound pieces; only the dots are internal entries. */
  lemma {:induction false} ReportedNames(pieces: seq<Piece>, at: nat, n: nat)
    requires AllSound(pieces) && n < |ReportedFrom(pieces, at)|
    ensures var e := ReportedFrom(pieces, at)[n];
      e.kind == Internal <==> IsInternalName(e.primary.name)
  {
    hide IsInternalName, Piece.Slots, Piece.Reported, Piece.Sound;
    var own := pieces[0].Reported(at);
    PieceSizes(pieces[0], at);
    if n < |own| {
      PieceNames(pieces[0], at);
    } else {
      ReportedNames(pieces[1..], at + |pieces[0].Slots()|, n - |own|);
    }
  }

  lemma PieceNames(piece: Piece, at: nat)
    requires piece.Sound() && !piece.Deleted?
    ensures var e := piece.Reported(at)[0]; e.kind == Internal <==> IsInternalName(e.primary.name)
  {
    hide IsInternalName;
    match piece {
      case File(p) => StoredIsNoDot(p.name);
      case Folder(p) => StoredIsNoDot(p.name);
      case Dots(p) => DotNames(p.name);
    }
  }

  lemma FreshIsApart(entries: seq<Entry>)
    requires forall i :: 0 <= i < |entries| ==>
             (entries[i].kind == Internal <==> IsInternalName(entries[i].primary.name))
    ensures FreshNames([], entries) <==> NamesApart(entries)
  {
    hide IsInternalName;
    forall i | 0 <= i < |entries| ensures [] + entries[..i] == entries[..i] {}
    if NamesApart(entries) {
      forall i | 0 <= i < |entries| ensures !Named(entries[..i], entries[i].primary.name) {
        forall k | 0 <= k < i && entries[k].kind != Internal
          ensures entries[..i][k].primary.name != entries[i].primary.name
        {
          assert entries[i].kind == Internal ==> entries[k].primary.name != entries[i].primary.name;
        }
      }
    }
    if FreshNames([], entries) {
      forall i, j | 0 <= i < j < |entries| && entries[i].kind != Internal
        ensures entries[i].primary.name != entries[j].primary.name
      {
        assert !Named([] + entries[..j], entries[j].primary.name);
        assert entries[..j][i] == entries[i];
      }
    }
  }

  /**
    The round trip.  A cluster onto which any pieces were laid scans to exactly their entries, kinds and slots,
    unless a name comes twice, which is reported as such.
  */
  lemma LaidScans(pieces: seq<Piece>, tail: seq<Record>)
    requires AllSound(pieces) && Ended(tail)
    ensures Scan(Laid(pieces) + tail) ==
            if NamesApart(ReportedFrom(pieces, 0)) then Success(ReportedFrom(pieces, 0)) else Failure(AlreadyExists)
  {
    var slots, entries := Laid(pieces) + tail, ReportedFrom(pieces, 0);
    assert slots[0..] == slots && [] + entries == entries;
    forall n | 0 <= n < |entries| ensures entries[n].kind == Internal <==> IsInternalName(entries[n].primary.name) {
      ReportedNames(pieces, 0, n);
    }
    FreshIsApart(entries);
    ScanOfPieces(slots, 0, pieces, tail, []);
  }

  /** A cluster scans exactly when it is laid out of sound pieces whose names are apart. */
  lemma ScansAreLaid(slots: seq<Record>)
    ensures Scan(slots).Success? <==>
            exists pieces, tail :: slots == Laid(pieces) + tail && AllSound(pieces) && Ended(tail)
              && NamesApart(ReportedFrom(pieces, 0))
  {
    forall pieces, tail | slots == Laid(pieces) + tail && AllSound(pieces) && Ended(tail)
      ensures Scan(slots).Success? <==> NamesApart(ReportedFrom(pieces, 0))
    {
      LaidScans(pieces, tail);
    }
    if Scan(slots).Success? {
      var pieces, tail := PiecesOfScan(slots, 0, []);
      assert slots[0..] == slots;
    }
  }
}
