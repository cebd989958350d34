/**
  The two 32-byte directory records of a regular file: the primary record that holds name, first
  cluster and size, and the companion record whose committed flag makes the pair count.
*/
module Records {
  import opened Bytes
  import opened Status
  import FatChain
  import opened Crc32

  const RECORD_SIZE := 32
  const ATTRIBUTE_DIRECTORY: Byte := 0x10
  const ATTRIBUTE_REGULAR: Byte := 0x20
  const COMPANION_TYPE: Byte := 0xf1
  const DELETED: Byte := 0xe5
  const SPACE: Byte := 0x20
  const CRC_AT := 16

  type Name = n: seq<Byte> | |n| == 11 witness seq(11, _ => 0)
  type Record = r: seq<Byte> | |r| == RECORD_SIZE witness seq(RECORD_SIZE, _ => 0)

  datatype Primary = Primary(name: Name, attributes: Byte, firstCluster: u32, fileSize: u32)

  datatype Companion = Companion(
    committed: bool, extensionLength: Byte, nameChecksum: Byte, hashText: seq<Byte>)

  // ----- names ---------------------------------------------------------------------------------

  predicate SupportedNameByte(v: Byte) {
    0x41 <= v <= 0x5a || 0x30 <= v <= 0x39 || v == 0x5f || v == 0x2d
  }

  /** Supported bytes followed by nothing but padding. */
  predicate Padded(field: seq<Byte>) {
    forall i :: 0 <= i < |field| ==>
      || field[i] == SPACE
      || (SupportedNameByte(field[i]) && forall j :: 0 <= j < i ==> field[j] != SPACE)
  }

  predicate ValidStoredName(name: Name) {
    name[0] != SPACE && Padded(name[..8]) && Padded(name[8..])
  }

  function TrimmedLength(field: seq<Byte>): (n: nat)
    ensures n <= |field|
  {
    if field != [] && field[|field| - 1] == SPACE then TrimmedLength(field[..|field| - 1]) else |field|
  }

  function Extension(name: Name): (e: seq<Byte>)
    ensures |e| <= 3
  {
    name[8..][..TrimmedLength(name[8..])]
  }

  function NameChecksum(name: seq<Byte>): Byte {
    if name == [] then 0
    else
      var c: int := NameChecksum(name[..|name| - 1]);
      ((if c % 2 == 1 then 0x80 else 0) + c / 2 + name[|name| - 1]) % 0x100
  }

  function Fnv1a32(bytes: seq<Byte>): bv32 {
    if bytes == [] then 0x811c_9dc5
    else HashStep(Fnv1a32(bytes[..|bytes| - 1]), bytes[|bytes| - 1])
  }

  function HashStep(hash: bv32, b: Byte): bv32 {
    (hash ^ (Pattern(b) as bv32)) * 0x0100_0193
  }

  function HexDigit(v: int): Byte
    requires 0 <= v < 16
  {
    if v < 10 then 0x30 + v else 0x41 + v - 10
  }

  predicate IsHexDigit(b: Byte) {
    0x30 <= b <= 0x39 || 0x41 <= b <= 0x46
  }

  function HexText(v: nat, digits: nat): (text: seq<Byte>)
    ensures |text| == digits && forall i :: 0 <= i < digits ==> IsHexDigit(text[i])
  {
    if digits == 0 then [] else HexText(v / 16, digits - 1) + [HexDigit(v % 16)]
  }

  function HashText(extension: seq<Byte>): (text: seq<Byte>)
    ensures |text| == 8 && forall i :: 0 <= i < 8 ==> IsHexDigit(text[i])
  {
    HexText(Fnv1a32(extension) as int, 8)
  }

  // ----- primary record ------------------------------------------------------------------------

  predicate Encodable(p: Primary) {
    && ValidStoredName(p.name)
    && (p.attributes == ATTRIBUTE_REGULAR || p.attributes == ATTRIBUTE_DIRECTORY)
    && (p.attributes == ATTRIBUTE_DIRECTORY ==> p.fileSize == 0)
    && (p.attributes == ATTRIBUTE_REGULAR && p.fileSize == 0 ==> p.firstCluster == 0)
    && (p.fileSize != 0 || p.attributes == ATTRIBUTE_DIRECTORY ==> p.firstCluster >= 2)
    && p.firstCluster <= FatChain.MAX_DATA_CLUSTER
  }

  function PrimaryBytes(p: Primary): Record {
    p.name + [p.attributes] + Zeros(8) + WriteLe16(p.firstCluster / 0x1_0000)
    + Zeros(4) + WriteLe16(p.firstCluster % 0x1_0000) + WriteLe32(p.fileSize)
  }

  function EncodePrimary(p: Primary): Result<Record> {
    if Encodable(p) then Success(PrimaryBytes(p)) else Failure(InvalidArgument)
  }

  predicate AllZero(bytes: seq<Byte>) {
    forall i :: 0 <= i < |bytes| ==> bytes[i] == 0
  }

  function DecodePrimary(r: Record): Result<Primary> {
    if r[0] == 0 || r[0] == DELETED then Failure(NotFound)
    else
      var p := Primary(r[..11], r[11],
                       ReadLe16(r[20..22]) as int * 0x1_0000 + ReadLe16(r[26..28]), ReadLe32(r[28..32]));
      if Encodable(p) && AllZero(r[12..20]) && AllZero(r[22..26]) then Success(p)
      else Failure(Protocol)
  }

  lemma PrimaryRoundTrip(p: Primary)
    requires Encodable(p)
    ensures DecodePrimary(PrimaryBytes(p)) == Success(p)
  {
    var r := PrimaryBytes(p);
    assert r[..11] == p.name && r[11] == p.attributes;
    assert r[20..22] == WriteLe16(p.firstCluster / 0x1_0000);
    assert r[26..28] == WriteLe16(p.firstCluster % 0x1_0000);
    assert r[28..32] == WriteLe32(p.fileSize);
    assert AllZero(r[12..20]) && AllZero(r[22..26]);
    assert r[0] == p.name[0];
    assert p.name[..8][0] == p.name[0];
  }

  /** Nothing decodes that was not an encoding: decode and encode are mutually inverse. */
  lemma PrimaryCanonical(r: Record)
    requires DecodePrimary(r).Success?
    ensures Encodable(DecodePrimary(r).value) && PrimaryBytes(DecodePrimary(r).value) == r
  {
    var p := DecodePrimary(r).value;
    var high, low := ReadLe16(r[20..22]), ReadLe16(r[26..28]);
    assert p.firstCluster / 0x1_0000 == high && p.firstCluster % 0x1_0000 == low;
    ReadLe16Injective(WriteLe16(high), r[20..22]);
    ReadLe16Injective(WriteLe16(low), r[26..28]);
    ReadLe32Injective(WriteLe32(p.fileSize), r[28..32]);
    assert r[12..20] == Zeros(8) && r[22..26] == Zeros(4);
    assert r == r[..11] + [r[11]] + r[12..20] + r[20..22] + r[22..26] + r[26..28] + r[28..32];
  }

  // ----- companion record ----------------------------------------------------------------------

  function CompanionBody(name: Name, committed: bool): Record {
    [COMPANION_TYPE, 1, 1, if committed then 1 else 0, |Extension(name)|, NameChecksum(name), 0, 0]
    + HashText(Extension(name)) + Zeros(16)
  }

  function CompanionBytes(name: Name, committed: bool): Record {
    Seal(CompanionBody(name, committed), CRC_AT)
  }

  function EncodeCompanion(name: Name, committed: bool): Result<Record> {
    if ValidStoredName(name) then Success(CompanionBytes(name, committed)) else Failure(InvalidArgument)
  }

  function DecodeCompanion(r: Record): Result<Companion> {
    if !Sealed(r, CRC_AT) then Failure(Corrupt)
    else if r[0] != COMPANION_TYPE || r[1] != 1 || r[2] != 1 || r[3] > 1 || r[4] > 3
            || !AllZero(r[6..8]) || !(forall i :: 8 <= i < 16 ==> IsHexDigit(r[i])) || !AllZero(r[20..32])
    then Failure(Protocol)
    else Success(Companion(r[3] == 1, r[4], r[5], r[8..16]))
  }

  lemma CompanionRoundTrip(name: Name, committed: bool)
    ensures DecodeCompanion(CompanionBytes(name, committed)) ==
            Success(Companion(committed, |Extension(name)|, NameChecksum(name), HashText(Extension(name))))
  {
    hide Crc, HashText, NameChecksum, Extension;
    var r, body := CompanionBytes(name, committed), CompanionBody(name, committed);
    assert r[8..16] == body[8..16] == HashText(Extension(name));
    assert forall i :: 8 <= i < 16 ==> r[i] == HashText(Extension(name))[i - 8];
    assert forall i :: 20 <= i < 32 ==> r[i] == Zeros(16)[i - 16];
  }

  /** One flipped byte anywhere in a companion record makes it undecodable. */
  lemma CompanionDetectsDamage(r: Record, damaged: Record, k: nat)
    requires DecodeCompanion(r).Success? && DifferOnlyAt(r, damaged, k)
    ensures DecodeCompanion(damaged).Failure?
  {
    SingleByteChangeBreaksSeal(r, damaged, CRC_AT, k);
  }

  // ----- the pair ------------------------------------------------------------------------------

  function ValidatePair(companion: Record, primary: Record): Status {
    match DecodeCompanion(companion)
    case Failure(error) => error
    case Success(c) =>
      match DecodePrimary(primary)
      case Failure(error) => if error == NotFound then Corrupt else error
      case Success(p) =>
        if c.committed && p.attributes == ATTRIBUTE_REGULAR && c.extensionLength == |Extension(p.name)|
           && c.nameChecksum == NameChecksum(p.name) && c.hashText == HashText(Extension(p.name))
        then Ok else Corrupt
  }

  /** What a reader of the directory sees at a slot pair: a file, or nothing. */
  function Pair(companion: Record, primary: Record): (p: Option<Primary>)
    ensures p.Some? ==> DecodePrimary(primary) == Success(p.value) && p.value.attributes == ATTRIBUTE_REGULAR
  {
    if ValidatePair(companion, primary) == Ok then Some(DecodePrimary(primary).value) else None
  }

  lemma CommittedPairReads(p: Primary)
    requires Encodable(p) && p.attributes == ATTRIBUTE_REGULAR
    ensures Pair(CompanionBytes(p.name, true), PrimaryBytes(p)) == Some(p)
  {
    CompanionRoundTrip(p.name, true);
    PrimaryRoundTrip(p);
  }

  /** Encoding is refused exactly for values that no record decodes to. */
  lemma PrimaryEncodes(p: Primary)
    ensures match EncodePrimary(p)
            case Success(r) => DecodePrimary(r) == Success(p)
            case Failure(error) => error == InvalidArgument && forall r: Record :: DecodePrimary(r) != Success(p)
  {
    hide PrimaryBytes;
    if Encodable(p) {
      PrimaryRoundTrip(p);
    } else {
      forall r: Record ensures DecodePrimary(r) != Success(p) {
        if DecodePrimary(r).Success? {
          PrimaryCanonical(r);
        }
      }
    }
  }

  /** A companion is refused exactly for a name that no file of a valid pair can have. */
  lemma CompanionEncodes(name: Name, p: Primary)
    requires p.name == name && p.attributes == ATTRIBUTE_REGULAR
    ensures match EncodeCompanion(name, true)
            case Success(r) => Encodable(p) ==> Pair(r, PrimaryBytes(p)) == Some(p)
            case Failure(error) =>
              && error == InvalidArgument
              && forall first, second :: Pair(first, second).Some? ==> Pair(first, second).value.name != name
  {
    hide PrimaryBytes, CompanionBytes, DecodeCompanion;
    if ValidStoredName(name) {
      if Encodable(p) {
        CommittedPairReads(p);
      }
    } else {
      forall first, second | Pair(first, second).Some? ensures Pair(first, second).value.name != name {
        PrimaryCanonical(second);
      }
    }
  }

  lemma UncommittedNeverReads(name: Name, primary: Record)
    ensures Pair(CompanionBytes(name, false), primary) == None
  {
    CompanionRoundTrip(name, false);
  }

  /** A slot that starts with anything but a companion tag is never the first half of a pair. */
  lemma OnlyCompanionsStartPairs(first: Record, primary: Record)
    requires first[0] != COMPANION_TYPE
    ensures Pair(first, primary) == None
  {}

  lemma PairStarts(first: Record, second: Record)
    ensures Pair(first, second).Some? ==> first[0] == COMPANION_TYPE
  {}

  lemma PairEnds(first: Record, second: Record)
    ensures Pair(first, second).Some? ==> second[0] != COMPANION_TYPE
  {
    assert second[..11][..8][0] == second[0];
  }

  /** A free slot, a deleted slot or a companion record is never the second half of a pair. */
  lemma OnlyPrimariesEndPairs(companion: Record, second: Record)
    requires second[0] == 0 || second[0] == DELETED || second[0] == COMPANION_TYPE
    ensures Pair(companion, second) == None
  {
    assert second[..11][..8][0] == second[0];
  }

  lemma TaggedIsNoPrimary(r: Record)
    requires r[0] == COMPANION_TYPE || r[0] == DELETED || r[0] == 0
    ensures DecodePrimary(r).Failure?
  {
    assert r[..11][..8][0] == r[0];
  }

  lemma PrimaryFirstByte(p: Primary)
    requires Encodable(p)
    ensures PrimaryBytes(p)[0] != COMPANION_TYPE && PrimaryBytes(p)[0] != 0 && PrimaryBytes(p)[0] != DELETED
  {
    assert PrimaryBytes(p)[0] == p.name[0] == p.name[..8][0];
  }
}
