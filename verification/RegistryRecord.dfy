/** The 32-byte registry record: where a file with a given extension was seen last. */
module RegistryRecord {
  import opened Bytes
  import opened Status
  import opened Crc32
  import opened Records

  const RECORD_TYPE: Byte := 0xe1
  const CHECKSUM_AT := 28

  datatype Hint = Hint(active: bool, extension: seq<Byte>, cluster: u32, slot: u16, generation: u16)

  predicate ValidExtension(e: seq<Byte>) {
    |e| <= 3 && forall i :: 0 <= i < |e| ==> SupportedNameByte(e[i])
  }

  /** The extension as the record stores it, padded with spaces. */
  function PaddedExtension(e: seq<Byte>): (p: seq<Byte>)
    requires |e| <= 3
    ensures |p| == 3 && p[..|e|] == e && forall i :: |e| <= i < 3 ==> p[i] == SPACE
  {
    e + seq(3 - |e|, _ => SPACE)
  }

  function Head(h: Hint): (b: seq<Byte>)
    requires |h.extension| <= 3
    ensures |b| == 8 && b[0] == RECORD_TYPE && b[1] == 1 && b[2] == (if h.active then 1 else 0) && b[3] == |h.extension|
    ensures b[4] == 1 && b[5] == b[6] == b[7] == 0
  {
    [RECORD_TYPE, 1, if h.active then 1 else 0, |h.extension|, 1, 0, 0, 0]
  }

  function Place(h: Hint): (b: seq<Byte>)
    ensures |b| == 8 && b[..4] == WriteLe32(h.cluster) && b[4..6] == WriteLe16(h.slot)
            && b[6..8] == WriteLe16(h.generation)
  {
    WriteLe32(h.cluster) + WriteLe16(h.slot) + WriteLe16(h.generation)
  }

  function Body(h: Hint): (b: Record)
    requires |h.extension| <= 3
    ensures b[..8] == Head(h) && b[8..11] == PaddedExtension(h.extension) && b[11] == 0
    ensures b[12..20] == HashText(h.extension) && b[20..28] == Place(h)
  {
    hide Head, PaddedExtension, HashText, Place, Zeros;
    var front, back := Head(h) + PaddedExtension(h.extension) + [0], HashText(h.extension) + Place(h) + Zeros(4);
    ThreePieces(Head(h), PaddedExtension(h.extension), [0]);
    ThreePieces(HashText(h.extension), Place(h), Zeros(4));
    var b := front + back;
    assert b[..12] == front && b[12..] == back;
    assert b[..8] == front[..8] && b[8..11] == front[8..11] && b[11] == front[11..][0];
    assert b[12..20] == back[..8] && b[20..28] == back[8..16];
    b
  }

  function HintBytes(h: Hint): Record
    requires |h.extension| <= 3
  {
    Seal(Body(h), CHECKSUM_AT)
  }

  function Encode(h: Hint): Result<Record> {
    if ValidExtension(h.extension) then Success(HintBytes(h)) else Failure(InvalidArgument)
  }

  predicate StoredExtension(r: Record) {
    && r[3] <= 3 && (forall k :: 8 <= k < 8 + r[3] ==> SupportedNameByte(r[k]))
    && (forall k :: 8 + r[3] <= k < 11 ==> r[k] == SPACE)
  }

  function Fields(r: Record): Hint
    requires r[3] <= 3
  {
    Hint(r[2] % 2 == 1, r[8..8 + r[3]], ReadLe32(r[20..28][..4]), ReadLe16(r[20..28][4..6]), ReadLe16(r[20..28][6..8]))
  }

  function Decode(r: Record): Result<Hint> {
    if r[0] != RECORD_TYPE then Failure(Corrupt)
    else if r[1] != 1 then Failure(UnsupportedVersion)
    else if !Sealed(r, CHECKSUM_AT) || r[2] > 1 || r[4] != 1 || !AllZero(r[5..8]) || r[11] != 0 || !StoredExtension(r)
    then Failure(Corrupt)
    else if r[12..20] != HashText(r[8..8 + r[3]]) then Failure(Corrupt)
    else Success(Fields(r))
  }

  predicate EmptySlot(r: Record) {
    AllZero(r)
  }

  lemma EncodeDecodes(h: Hint)
    requires ValidExtension(h.extension)
    ensures Decode(HintBytes(h)) == Success(h) && !EmptySlot(HintBytes(h))
  {
    hide HashText, Sealed, Cleared, SupportedNameByte, Crc;
    var r, b := HintBytes(h), Body(h);
    assert r[..8] == b[..8] && r[8..11] == b[8..11] && r[12..20] == b[12..20] && r[20..28] == b[20..28];
    assert r[0] == r[..8][0] && r[1] == r[..8][1] && r[2] == r[..8][2] && r[3] == r[..8][3] && r[4] == r[..8][4];
    assert r[5..8] == r[..8][5..8];
    assert r[8..8 + r[3]] == r[8..11][..r[3]] == h.extension;
    assert forall k :: 8 <= k < 11 ==> r[k] == r[8..11][k - 8];
  }

  /** Nothing decodes that was not an encoding. */
  lemma DecodeEncodes(r: Record)
    requires Decode(r).Success?
    ensures ValidExtension(Decode(r).value.extension) && HintBytes(Decode(r).value) == r
  {
    hide HashText, SupportedNameByte, Sealed, Crc;
    var h := Decode(r).value;
    assert forall i :: 0 <= i < |h.extension| ==> h.extension[i] == r[8 + i];
    var b := Body(h);
    assert r[..8] == b[..8] by {
      assert r[5..8] == [r[5], r[6], r[7]];
      assert r[..8] == [r[0], r[1], r[2], r[3], r[4], r[5], r[6], r[7]];
    }
    assert r[8..11] == b[8..11];
    assert r[20..28] == b[20..28] by {
      PlaceDetermined(h, r[20..28]);
    }
    SameAroundChecksum(r, b);
    SealIsUnique(r, b, CHECKSUM_AT);
  }

  lemma PlaceDetermined(h: Hint, b: seq<Byte>)
    requires |b| == 8 && ReadLe32(b[..4]) == h.cluster && ReadLe16(b[4..6]) == h.slot
             && ReadLe16(b[6..8]) == h.generation
    ensures b == Place(h)
  {
    hide ReadLe16, ReadLe32, Place;
    var z := Place(h);
    ReadLe32Injective(z[..4], b[..4]);
    ReadLe16Injective(z[4..6], b[4..6]);
    ReadLe16Injective(z[6..8], b[6..8]);
    assert b == b[..4] + b[4..6] + b[6..8] && z == z[..4] + z[4..6] + z[6..8];
  }

  lemma SameAroundChecksum(r: Record, b: Record)
    requires r[..8] == b[..8] && r[8..11] == b[8..11] && r[11] == b[11] && r[12..20] == b[12..20]
             && r[20..28] == b[20..28]
    ensures Cleared(r, CHECKSUM_AT) == Cleared(b, CHECKSUM_AT)
  {
    assert r[..28] == r[..8] + r[8..11] + [r[11]] + r[12..20] + r[20..28];
    assert b[..28] == b[..8] + b[8..11] + [b[11]] + b[12..20] + b[20..28];
  }

  lemma DamageIsDetected(r: Record, damaged: Record, k: nat)
    requires Decode(r).Success? && DifferOnlyAt(r, damaged, k)
    ensures Decode(damaged).Failure?
  {
    SingleByteChangeBreaksSeal(r, damaged, CHECKSUM_AT, k);
  }
}
