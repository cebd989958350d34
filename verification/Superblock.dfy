/** The 512-byte superblock: its two copies are the volume's identity, sealed by a checksum. */
module Superblock {
  import opened Bytes
  import opened Status
  import opened Crc32
  import opened Layout

  const MAGIC: seq<Byte> := [0x49, 0x4e, 0x46, 0x4f, 0x53, 0x46, 0x53, 0x31]
  const CHECKSUM_AT := 0x48
  const MAX64 := 0xffff_ffff_ffff_ffff

  type Label = l: seq<Byte> | |l| == 11 witness seq(11, _ => 0)

  datatype Superblock = Superblock(
    totalSectors: u64, sectorsPerFat: u32, registryStart: u64, volumeSerial: u32, flags: u16, volumeLabel: Label)

  predicate ValidLabel(text: Label) {
    forall i :: 0 <= i < 11 ==>
      text[i] == 0x20 || 0x41 <= text[i] <= 0x5a || 0x30 <= text[i] <= 0x39 || text[i] == 0x5f
  }

  /** The start of the registry is checked against a sum that the source takes in 32 bits. */
  predicate Storable(s: Superblock) {
    && s.totalSectors != 0 && s.sectorsPerFat != 0 && s.flags == 0
    && s.registryStart == (SUPERBLOCK_SECTORS + s.sectorsPerFat) % 0x1_0000_0000
    && s.registryStart <= MAX64 - REGISTRY_SECTORS
    && s.registryStart + REGISTRY_SECTORS < s.totalSectors && ValidLabel(s.volumeLabel)
  }

  // ----- the layout: fixed fields between the ones that vary ------------------------------------

  /** Magic, versions and sizes, offsets 0x00 to 0x15. */
  function Identity(): (b: seq<Byte>)
    ensures |b| == 0x16
  {
    MAGIC + WriteLe16(1) + WriteLe16(80) + WriteLe16(SECTOR_SIZE) + [8, 1]
    + WriteLe16(SUPERBLOCK_SECTORS) + WriteLe16(32) + WriteLe16(32)
  }

  /** Hash algorithm and record versions, offsets 0x43 to 0x47. */
  function Versions(): (b: seq<Byte>)
    ensures |b| == 5
  {
    [1] + WriteLe16(1) + WriteLe16(1)
  }

  /** Reserved bytes and trailer, offsets 0x4c to 0x1ff. */
  function Tail(): (b: seq<Byte>)
    ensures |b| == SECTOR_SIZE - 0x4c
  {
    Zeros(434) + WriteLe16(0xaa55)
  }

  function Sizes(s: Superblock): (b: seq<Byte>)
    ensures |b| == 0x22
    ensures b[..2] == WriteLe16(s.flags) && b[2..10] == WriteLe64(s.totalSectors)
    ensures b[10..14] == WriteLe32(s.sectorsPerFat) && b[14..18] == WriteLe32(2)
    ensures b[18..26] == WriteLe64(s.registryStart) && b[26..30] == WriteLe32(REGISTRY_SECTORS)
    ensures b[30..34] == WriteLe32(s.volumeSerial)
  {
    WriteLe16(s.flags) + WriteLe64(s.totalSectors) + WriteLe32(s.sectorsPerFat) + WriteLe32(2)
    + WriteLe64(s.registryStart) + WriteLe32(REGISTRY_SECTORS) + WriteLe32(s.volumeSerial)
  }

  function Body(s: Superblock): (b: Sector)
    ensures b[..0x16] == Identity() && b[0x16..0x38] == Sizes(s) && b[0x38..0x43] == s.volumeLabel
    ensures b[0x43..0x48] == Versions() && b[0x48..0x4c] == Zeros(4) && b[0x4c..] == Tail()
  {
    hide Identity, Sizes, Versions, Tail, Zeros;
    var front, back := Identity() + Sizes(s) + s.volumeLabel, Versions() + Zeros(4) + Tail();
    ThreePieces(Identity(), Sizes(s), s.volumeLabel);
    ThreePieces(Versions(), Zeros(4), Tail());
    var b := front + back;
    assert b[..0x43] == front && b[0x43..] == back;
    assert b[..0x16] == front[..0x16] && b[0x16..0x38] == front[0x16..0x38] && b[0x38..0x43] == front[0x38..];
    assert b[0x43..0x48] == back[..5] && b[0x48..0x4c] == back[5..9] && b[0x4c..] == back[9..];
    b
  }

  function SuperblockBytes(s: Superblock): Sector {
    Seal(Body(s), CHECKSUM_AT)
  }

  function Encode(s: Superblock): Result<Sector> {
    if Storable(s) then Success(SuperblockBytes(s)) else Failure(InvalidArgument)
  }

  function Fields(d: Sector): Superblock {
    var sizes := d[0x16..0x38];
    Superblock(ReadLe64(sizes[2..10]), ReadLe32(sizes[10..14]), ReadLe64(sizes[18..26]),
               ReadLe32(sizes[30..34]), ReadLe16(sizes[..2]), d[0x38..0x43])
  }

  function Decode(d: Sector): Result<Superblock> {
    if !Sealed(d, CHECKSUM_AT) then Failure(Corrupt)
    else if d[..0x16] != Identity() || ReadLe32(d[0x16..0x38][14..18]) != 2
            || ReadLe32(d[0x16..0x38][26..30]) != REGISTRY_SECTORS
            || d[0x43..0x48] != Versions() || d[0x4c..] != Tail() || !Storable(Fields(d))
    then Failure(Protocol)
    else Success(Fields(d))
  }

  lemma ClearedAt(d: seq<Byte>, at: nat, i: nat)
    requires at + 4 <= |d| && i < |d|
    ensures |Cleared(d, at)| == |d| && Cleared(d, at)[i] == if at <= i < at + 4 then 0 else d[i]
  {}

  /** The checksum loop, which reads its own field as zero instead of clearing it. */
  method ComputeCrc(d: Sector) returns (result: u32)
    ensures result == Crc(Cleared(d, CHECKSUM_AT))
  {
    hide Cleared, Pattern;
    var crc: bv32 := 0xffff_ffff;
    ghost var cleared := Cleared(d, CHECKSUM_AT);
    ClearedAt(d, CHECKSUM_AT, 0);
    for index := 0 to SECTOR_SIZE
      invariant crc == Remainder(0xffff_ffff, cleared[..index])
    {
      assert cleared[..index + 1][..index] == cleared[..index];
      var value: Byte := if CHECKSUM_AT <= index < CHECKSUM_AT + 4 then 0 else d[index];
      ClearedAt(d, CHECKSUM_AT, index);
      crc := crc ^ (Pattern(value) as bv32);
      ghost var mixed := crc;
      for bit := 0 to 8
        invariant crc == Bits(mixed, bit)
      {
        crc := (crc >> 1) ^ (if crc & 1 != 0 then 0xedb8_8320 else 0);
      }
    }
    assert cleared[..SECTOR_SIZE] == cleared;
    result := Value(Final(crc));
  }

  // ----- both directions, and damage ------------------------------------------------------------

  lemma EncodeDecodes(s: Superblock)
    requires Storable(s)
    ensures Decode(SuperblockBytes(s)) == Success(s)
  {
    hide Identity, Sizes, Versions, Tail, Storable, Sealed;
    var d, body := SuperblockBytes(s), Body(s);
    assert d[..0x16] == body[..0x16] && d[0x16..0x38] == body[0x16..0x38] && d[0x38..0x43] == body[0x38..0x43];
    assert d[0x43..0x48] == body[0x43..0x48] && d[0x4c..] == body[0x4c..];
  }

  lemma SizesDetermined(s: Superblock, b: seq<Byte>)
    requires |b| == 0x22 && ReadLe16(b[..2]) == s.flags && ReadLe64(b[2..10]) == s.totalSectors
    requires ReadLe32(b[10..14]) == s.sectorsPerFat && ReadLe32(b[14..18]) == 2
    requires ReadLe64(b[18..26]) == s.registryStart && ReadLe32(b[26..30]) == REGISTRY_SECTORS
    requires ReadLe32(b[30..34]) == s.volumeSerial
    ensures b == Sizes(s)
  {
    hide Sizes, ReadLe16, ReadLe32, ReadLe64, WriteLe16, WriteLe32, WriteLe64;
    var z := Sizes(s);
    ReadLe16Injective(z[..2], b[..2]);
    ReadLe64Injective(z[2..10], b[2..10]);
    ReadLe32Injective(z[10..14], b[10..14]);
    ReadLe32Injective(z[14..18], b[14..18]);
    ReadLe64Injective(z[18..26], b[18..26]);
    ReadLe32Injective(z[26..30], b[26..30]);
    ReadLe32Injective(z[30..34], b[30..34]);
    assert b == b[..2] + b[2..10] + b[10..14] + b[14..18] + b[18..26] + b[26..30] + b[30..34];
    assert z == z[..2] + z[2..10] + z[10..14] + z[14..18] + z[18..26] + z[26..30] + z[30..34];
  }

  lemma SameAroundChecksum(d: Sector, body: Sector)
    requires d[..0x16] == body[..0x16] && d[0x16..0x38] == body[0x16..0x38] && d[0x38..0x43] == body[0x38..0x43]
    requires d[0x43..0x48] == body[0x43..0x48] && d[0x4c..] == body[0x4c..]
    ensures Cleared(d, CHECKSUM_AT) == Cleared(body, CHECKSUM_AT)
  {
    assert d[..0x48] == d[..0x16] + d[0x16..0x38] + d[0x38..0x43] + d[0x43..0x48];
    assert body[..0x48] == body[..0x16] + body[0x16..0x38] + body[0x38..0x43] + body[0x43..0x48];
  }

  /** Nothing decodes that was not an encoding. */
  lemma DecodeEncodes(d: Sector)
    requires Decode(d).Success?
    ensures Storable(Decode(d).value) && SuperblockBytes(Decode(d).value) == d
  {
    var s := Fields(d);
    SizesDetermined(s, d[0x16..0x38]);
    hide Identity, Sizes, Versions, Tail, Storable, Body, Cleared;
    var body := Body(s);
    SameAroundChecksum(d, body);
    SealIsUnique(d, body, CHECKSUM_AT);
  }

  lemma DamageIsDetected(d: Sector, damaged: Sector, k: nat)
    requires Decode(d).Success? && DifferOnlyAt(d, damaged, k)
    ensures Decode(damaged) == Failure(Corrupt)
  {
    SingleByteChangeBreaksSeal(d, damaged, CHECKSUM_AT, k);
  }

  // ----- the two copies -------------------------------------------------------------------------

  datatype PairState = ReadWrite | Diagnostic | Rejected

  function ClassifyPair(primary: Sector, backup: Sector): PairState {
    if Decode(primary).Failure? && Decode(backup).Failure? then Rejected
    else if Decode(primary).Failure? || Decode(backup).Failure? then Diagnostic
    else if primary == backup then ReadWrite
    else Diagnostic
  }

  /** Writes are trusted only when both copies say the same; one damaged byte in either ends that. */
  lemma DamageEndsReadWrite(primary: Sector, backup: Sector, damaged: Sector, k: nat)
    requires ClassifyPair(primary, backup) == ReadWrite
    ensures DifferOnlyAt(primary, damaged, k) ==> ClassifyPair(damaged, backup) == Diagnostic
    ensures DifferOnlyAt(backup, damaged, k) ==> ClassifyPair(primary, damaged) == Diagnostic
  {
    if DifferOnlyAt(primary, damaged, k) {
      DamageIsDetected(primary, damaged, k);
    }
  }

  /** Two copies that both decode to the same values are the same bytes. */
  lemma SameValuesReadWrite(primary: Sector, backup: Sector)
    requires Decode(primary).Success? && Decode(backup).Success?
    ensures ClassifyPair(primary, backup) == ReadWrite <==> Decode(primary) == Decode(backup)
  {
    DecodeEncodes(primary);
    DecodeEncodes(backup);
  }
}
