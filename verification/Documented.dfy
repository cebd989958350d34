/**
  The tables and vectors of the format's documentation: where each field of the four on-disk records lies, what
  a stored name is, and the worked examples of the hash, the name checksum and the CRC.
*/
module Documented {
  import opened Bytes
  import opened Status
  import opened Crc32
  import opened Records
  import opened Superblock
  import opened Layout
  import FatChain
  import Directory
  import RegistryRecord

  // ----- names --------------------------------------------------------------------------------------

  /** A to Z, 0 to 9, underscore and hyphen. */
  predicate NameText(text: seq<Byte>) {
    forall i :: 0 <= i < |text| ==>
      0x41 <= text[i] <= 0x5a || 0x30 <= text[i] <= 0x39 || text[i] == 0x5f || text[i] == 0x2d
  }

  function Spaces(n: nat): (s: seq<Byte>)
    ensures |s| == n && forall i :: 0 <= i < n ==> s[i] == 0x20
  {
    seq(n, _ => 0x20)
  }

  /** The field holds this text and spaces behind it. */
  predicate Holds(field: seq<Byte>, text: seq<Byte>) {
    |text| <= |field| && NameText(text) && field == text + Spaces(|field| - |text|)
  }

  lemma {:induction false} FieldText(field: seq<Byte>) returns (text: seq<Byte>)
    requires Padded(field)
    ensures Holds(field, text) && text == field[..TrimmedLength(field)]
  {
    var last := |field| - 1;
    if field == [] {
      text := [];
    } else if field[last] == 0x20 {
      text := FieldText(field[..last]);
      assert field == field[..last] + [0x20];
      assert text + Spaces(|field| - |text|) == text + Spaces(last - |text|) + [0x20];
    } else {
      text := field;
      assert field[..|field|] == field && field + Spaces(0) == field;
    }
  }

  lemma HoldsIsPadded(field: seq<Byte>, text: seq<Byte>)
    requires Holds(field, text)
    ensures Padded(field)
  {}

  /** A stored name is a base of one to eight characters and an extension of up to three, each padded. */
  lemma StoredNames(name: Name)
    ensures ValidStoredName(name) <==>
            exists base, extension :: |base| > 0 && Holds(name[..8], base) && Holds(name[8..], extension)
  {
    if ValidStoredName(name) {
      var base := FieldText(name[..8]);
      var extension := FieldText(name[8..]);
      assert name[..8][0] == name[0];
    }
    forall base, extension | |base| > 0 && Holds(name[..8], base) && Holds(name[8..], extension)
      ensures ValidStoredName(name)
    {
      HoldsIsPadded(name[..8], base);
      HoldsIsPadded(name[8..], extension);
      assert name[0] == name[..8][0] == base[0];
    }
  }

  /** The extension is the text of the last three bytes. */
  lemma ExtensionText(name: Name)
    requires ValidStoredName(name)
    ensures Holds(name[8..], Extension(name))
  {
    var text := FieldText(name[8..]);
  }

  // ----- sectors, table entries and directory slots -------------------------------------------------

  /** The table is an array of 32-bit words from sector 2 on; behind it, 4096 sectors on, the clusters of eight. */
  lemma VolumeTable(disk: Disk, g: Geometry, c: nat, at: Slot)
    requires Fits(disk, g) && ClusterInRange(g, c) && SlotInRange(g, at)
    ensures ClusterSector(g, c) == 2 + g.fatSectors + 4096 + 8 * (c - 2) <= |disk| - 8
    ensures FatEntry(disk, g, c) == ReadLe32(disk[2 + 4 * c / 512][4 * c % 512..4 * c % 512 + 4])
    ensures RecordAt(disk, g, at) ==
            disk[ClusterSector(g, at.cluster) + 32 * at.index / 512][32 * at.index % 512..32 * at.index % 512 + 32]
  {
    assert 4 * c / 512 == c / 128 && 4 * c % 512 == 4 * (c % 128);
    assert 32 * at.index / 512 == at.index / 16 && 32 * at.index % 512 == 32 * (at.index % 16);
  }

  /** What each value of a table entry means in a table of `n` entries. */
  lemma EntryTable(raw: u32, n: nat)
    ensures FatChain.ClassifyNext(raw, n) ==
            if raw > 0x0fff_ffff then FatChain.Fault(Protocol)
            else if raw >= 0x0fff_fff8 then FatChain.End
            else if 2 <= raw <= 0x0fff_ffef && raw < n then FatChain.Link(raw)
            else FatChain.Fault(Corrupt)
  {}

  /** Two neighbouring slots are free exactly when each is deleted or unused, where no used slot follows an unused. */
  lemma FreeSlots(slots: seq<Record>, k: nat)
    requires k + 1 < |slots| && Directory.ZeroTail(slots)
    ensures Directory.PairFree(slots, k) <==> slots[k][0] in {0, 0xe5} && slots[k + 1][0] in {0, 0xe5}
  {}

  // ----- records ------------------------------------------------------------------------------------

  lemma PrimaryTable(p: Primary)
    ensures var r := PrimaryBytes(p);
      && r[0..11] == p.name && r[11] == p.attributes && (forall i :: 12 <= i < 20 ==> r[i] == 0)
      && 0x1_0000 * (ReadLe16(r[20..22]) as int) + ReadLe16(r[26..28]) == p.firstCluster
      && (forall i :: 22 <= i < 26 ==> r[i] == 0) && ReadLe32(r[28..32]) == p.fileSize
  {
    var r := PrimaryBytes(p);
    assert r[20..22] == WriteLe16(p.firstCluster / 0x1_0000);
    assert r[26..28] == WriteLe16(p.firstCluster % 0x1_0000);
    assert r[28..32] == WriteLe32(p.fileSize);
  }

  lemma CompanionTable(name: Name, committed: bool)
    ensures var r := CompanionBytes(name, committed);
      && r[0] == 0xf1 && r[1] == 1 && r[2] == 1 && r[3] == (if committed then 1 else 0)
      && r[4] == |Extension(name)| && r[5] == NameChecksum(name) && r[6] == r[7] == 0
      && r[8..16] == HashText(Extension(name)) && (forall i :: 20 <= i < 32 ==> r[i] == 0)
      && ReadLe32(r[16..20]) == Crc(r[..16] + [0, 0, 0, 0] + r[20..])
  {
    hide HashText, NameChecksum, Crc, Extension;
    var r, body := CompanionBytes(name, committed), CompanionBody(name, committed);
    assert r[8..16] == body[8..16];
    assert Cleared(r, 16) == r[..16] + [0, 0, 0, 0] + r[20..] by {
      assert Zeros(4) == [0, 0, 0, 0];
    }
  }

  lemma SuperblockIdentity(s: Superblock)
    ensures var d := SuperblockBytes(s);
      && d[0x000..0x008] == MAGIC && ReadLe16(d[0x008..0x00a]) == 1 && ReadLe16(d[0x00a..0x00c]) == 80
      && ReadLe16(d[0x00c..0x00e]) == 512 && d[0x00e] == 8 && d[0x00f] == 1
      && ReadLe16(d[0x010..0x012]) == 2 && ReadLe16(d[0x012..0x014]) == 32 && ReadLe16(d[0x014..0x016]) == 32
      && d[0x043] == 1 && ReadLe16(d[0x044..0x046]) == 1 && ReadLe16(d[0x046..0x048]) == 1
  {
    hide ReadLe16, WriteLe16, Body, Identity, Versions;
    var d := SuperblockBytes(s);
    assert d[..0x16] == Body(s)[..0x16] && d[0x43..0x48] == Body(s)[0x43..0x48];
    IdentityTable(d);
  }

  lemma SuperblockSizes(s: Superblock)
    ensures var d := SuperblockBytes(s);
      && ReadLe16(d[0x016..0x018]) == s.flags && ReadLe64(d[0x018..0x020]) == s.totalSectors
      && ReadLe32(d[0x020..0x024]) == s.sectorsPerFat && ReadLe32(d[0x024..0x028]) == 2
      && ReadLe64(d[0x028..0x030]) == s.registryStart && ReadLe32(d[0x030..0x034]) == 4096
      && ReadLe32(d[0x034..0x038]) == s.volumeSerial && d[0x038..0x043] == s.volumeLabel
  {
    hide ReadLe16, ReadLe32, ReadLe64, Body, Sizes;
    var d := SuperblockBytes(s);
    assert d[0x16..0x38] == Body(s)[0x16..0x38] && d[0x38..0x43] == Body(s)[0x38..0x43];
    SizesTable(s, d);
  }

  lemma SuperblockEnd(s: Superblock)
    ensures var d := SuperblockBytes(s);
      && ReadLe32(d[0x048..0x04c]) == Crc(d[..0x048] + [0, 0, 0, 0] + d[0x04c..])
      && (forall i :: 0x04c <= i < 0x1fe ==> d[i] == 0) && ReadLe16(d[0x1fe..]) == 0xaa55
  {
    hide Crc, ReadLe16, ReadLe32, Body, Tail;
    var d := SuperblockBytes(s);
    assert d[0x4c..] == Body(s)[0x4c..];
    TailTable(d);
    assert Cleared(d, 0x48) == d[..0x48] + [0, 0, 0, 0] + d[0x4c..] by {
      assert Zeros(4) == [0, 0, 0, 0];
    }
  }

  lemma IdentityTable(d: Sector)
    requires d[..0x16] == Identity() && d[0x43..0x48] == Versions()
    ensures d[0x000..0x008] == MAGIC && ReadLe16(d[0x008..0x00a]) == 1 && ReadLe16(d[0x00a..0x00c]) == 80
    ensures ReadLe16(d[0x00c..0x00e]) == 512 && d[0x00e] == 8 && d[0x00f] == 1
    ensures ReadLe16(d[0x010..0x012]) == 2 && ReadLe16(d[0x012..0x014]) == 32 && ReadLe16(d[0x014..0x016]) == 32
    ensures d[0x043] == 1 && ReadLe16(d[0x044..0x046]) == 1 && ReadLe16(d[0x046..0x048]) == 1
  {
    hide ReadLe16, WriteLe16;
    var head, versions := d[..0x16], d[0x43..0x48];
    assert d[0..8] == head[0..8] == MAGIC && d[8..10] == head[8..10] == WriteLe16(1);
    assert d[10..12] == head[10..12] == WriteLe16(80) && d[12..14] == head[12..14] == WriteLe16(512);
    assert d[14] == head[14] == 8 && d[15] == head[15] == 1;
    assert d[16..18] == head[16..18] == WriteLe16(2) && d[18..20] == head[18..20] == WriteLe16(32);
    assert d[20..22] == head[20..22] == WriteLe16(32);
    assert d[0x43] == versions[0] && d[0x44..0x46] == versions[1..3] == WriteLe16(1);
    assert d[0x46..0x48] == versions[3..5] == WriteLe16(1);
  }

  lemma SizesTable(s: Superblock, d: Sector)
    requires d[0x16..0x38] == Sizes(s)
    ensures ReadLe16(d[0x016..0x018]) == s.flags && ReadLe64(d[0x018..0x020]) == s.totalSectors
    ensures ReadLe32(d[0x020..0x024]) == s.sectorsPerFat && ReadLe32(d[0x024..0x028]) == 2
    ensures ReadLe64(d[0x028..0x030]) == s.registryStart && ReadLe32(d[0x030..0x034]) == 4096
    ensures ReadLe32(d[0x034..0x038]) == s.volumeSerial
  {
    hide Sizes, ReadLe16, ReadLe32, ReadLe64, WriteLe16, WriteLe32, WriteLe64;
    var z := d[0x16..0x38];
    assert d[0x16..0x18] == z[..2] && d[0x18..0x20] == z[2..10] && d[0x20..0x24] == z[10..14];
    assert d[0x24..0x28] == z[14..18] && d[0x28..0x30] == z[18..26] && d[0x30..0x34] == z[26..30];
    assert d[0x34..0x38] == z[30..34];
  }

  lemma TailTable(d: Sector)
    requires d[0x4c..] == Tail()
    ensures (forall i :: 0x04c <= i < 0x1fe ==> d[i] == 0) && ReadLe16(d[0x1fe..]) == 0xaa55
  {
    hide ReadLe16, WriteLe16;
    var t := d[0x4c..];
    assert d[0x1fe..] == t[434..] == WriteLe16(0xaa55);
    forall i | 0x04c <= i < 0x1fe ensures d[i] == 0 {
      assert d[i] == t[i - 0x4c];
    }
  }

  lemma RegistryTable(h: RegistryRecord.Hint)
    requires |h.extension| <= 3
    ensures var r := RegistryRecord.HintBytes(h);
      && r[0] == 0xe1 && r[1] == 1 && r[2] == (if h.active then 1 else 0) && r[3] == |h.extension| && r[4] == 1
      && r[5] == r[6] == r[7] == 0 && r[8..11] == h.extension + Spaces(3 - |h.extension|) && r[11] == 0
      && r[12..20] == HashText(h.extension) && ReadLe32(r[20..24]) == h.cluster && ReadLe16(r[24..26]) == h.slot
      && ReadLe16(r[26..28]) == h.generation && ReadLe32(r[28..32]) == Crc(r[..28] + [0, 0, 0, 0])
  {
    hide HashText, Crc, ReadLe16, ReadLe32, WriteLe16, WriteLe32, RegistryRecord.Body;
    var r, b := RegistryRecord.HintBytes(h), RegistryRecord.Body(h);
    assert r[..8] == b[..8] && r[8..11] == b[8..11] && r[12..20] == b[12..20] && r[20..28] == b[20..28];
    assert r[0] == r[..8][0] && r[1] == r[..8][1] && r[2] == r[..8][2] && r[3] == r[..8][3] && r[4] == r[..8][4];
    assert r[5] == r[..8][5] && r[6] == r[..8][6] && r[7] == r[..8][7];
    assert RegistryRecord.PaddedExtension(h.extension) == h.extension + Spaces(3 - |h.extension|);
    assert r[20..24] == r[20..28][..4] && r[24..26] == r[20..28][4..6] && r[26..28] == r[20..28][6..8];
    assert Cleared(r, 28) == r[..28] + [0, 0, 0, 0] by {
      assert Zeros(4) == [0, 0, 0, 0] && r[32..] == [];
    }
  }

  // ----- worked examples ----------------------------------------------------------------------------

  lemma HashGrows(front: seq<Byte>, b: Byte)
    ensures Fnv1a32(front + [b]) == HashStep(Fnv1a32(front), b)
  {
    hide HashStep;
    assert (front + [b])[..|front|] == front;
  }

  /** The hash of no extension, T, TX, TXT and BIN. */
  lemma HashVectors()
    ensures Fnv1a32([]) == 0x811c_9dc5 && Fnv1a32([0x54]) == 0xd10c_0b43 && Fnv1a32([0x54, 0x58]) == 0x30f5_7b81
    ensures Fnv1a32([0x54, 0x58, 0x54]) == 0xe771_f04f && Fnv1a32([0x42, 0x49, 0x4e]) == 0xdf81_ecde
  {
    hide Fnv1a32;
    NoHash();
    HashGrows([], 0x54);
    assert [] + [0x54] == [0x54];
    HashGrows([0x54], 0x58);
    assert [0x54] + [0x58] == [0x54, 0x58];
    HashGrows([0x54, 0x58], 0x54);
    assert [0x54, 0x58] + [0x54] == [0x54, 0x58, 0x54];
    HashGrows([], 0x42);
    assert [] + [0x42] == [0x42];
    HashGrows([0x42], 0x49);
    assert [0x42] + [0x49] == [0x42, 0x49];
    HashGrows([0x42, 0x49], 0x4e);
    assert [0x42, 0x49] + [0x4e] == [0x42, 0x49, 0x4e];
  }

  /** The stored text of the hash of TXT is E771F04F. */
  lemma HashTextVector()
    ensures HashText([0x54, 0x58, 0x54]) == [0x45, 0x37, 0x37, 0x31, 0x46, 0x30, 0x34, 0x46]
  {
    HashVectors();
    hide Fnv1a32;
    assert (0xe771_f04f as bv32) as int == 0xe771_f04f;
    HexDigits(0xe771, 0xf04f);
  }

  lemma HexDigits(high: nat, low: nat)
    requires high == 0xe771 && low == 0xf04f
    ensures HexText(0x1_0000 * high + low, 8) == [0x45, 0x37, 0x37, 0x31, 0x46, 0x30, 0x34, 0x46]
  {
    assert HexText(0xe771, 4) == [0x45, 0x37, 0x37, 0x31];
    assert HexText(0xe771_f0, 6) == [0x45, 0x37, 0x37, 0x31, 0x46, 0x30];
  }

  lemma NoHash()
    ensures Fnv1a32([]) == 0x811c_9dc5
  {}

  /** The name checksum of REPORT.TXT. */
  lemma ChecksumVector()
    ensures NameChecksum([0x52, 0x45, 0x50, 0x4f, 0x52, 0x54, 0x20, 0x20, 0x54, 0x58, 0x54]) == 0xa3
  {
    hide NameChecksum;
    NoChecksum();
    var name := [0x52, 0x45, 0x50, 0x4f, 0x52, 0x54, 0x20, 0x20, 0x54, 0x58, 0x54];
    assert name[..0] == [] && name[..11] == name;
    ChecksumOf(name, 0, 0x00, 0x52);
    ChecksumOf(name, 1, 0x52, 0x6e);
    ChecksumOf(name, 2, 0x6e, 0x87);
    ChecksumOf(name, 3, 0x87, 0x12);
    ChecksumOf(name, 4, 0x12, 0x5b);
    ChecksumOf(name, 5, 0x5b, 0x01);
    ChecksumOf(name, 6, 0x01, 0xa0);
    ChecksumOf(name, 7, 0xa0, 0x70);
    ChecksumOf(name, 8, 0x70, 0x8c);
    ChecksumOf(name, 9, 0x8c, 0x9e);
    ChecksumOf(name, 10, 0x9e, 0xa3);
  }

  /** The checksum of one more byte of the name. */
  lemma ChecksumOf(name: seq<Byte>, k: nat, before: Byte, after: Byte)
    requires k < |name| && NameChecksum(name[..k]) == before
    requires after == (before / 2 + 128 * (before % 2) + name[k]) % 256
    ensures NameChecksum(name[..k + 1]) == after
  {
    hide NameChecksum;
    ChecksumGrows(name[..k], name[k]);
    assert name[..k] + [name[k]] == name[..k + 1];
  }

  lemma NoChecksum()
    ensures NameChecksum([]) == 0
  {}

  /** Rotate right by one and add, in eight bits. */
  lemma ChecksumGrows(front: seq<Byte>, b: Byte)
    ensures NameChecksum(front + [b]) == (NameChecksum(front) / 2 + 128 * (NameChecksum(front) % 2) + b) % 256
  {
    assert (front + [b])[..|front|] == front;
  }
}
