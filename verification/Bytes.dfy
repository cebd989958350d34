/** Bytes, sectors and the little-endian codecs that the on-disk structures use. */
module Bytes {
  type Byte = x: int | 0 <= x < 256
  type u16 = x: int | 0 <= x < 0x1_0000
  type u32 = x: int | 0 <= x < 0x1_0000_0000
  type u64 = x: int | 0 <= x < 0x1_0000_0000_0000_0000

  const SECTOR_SIZE := 512

  type Sector = s: seq<Byte> | |s| == SECTOR_SIZE witness seq(SECTOR_SIZE, _ => 0)
  type Disk = seq<Sector>

  function Zeros(n: nat): (z: seq<Byte>)
    ensures |z| == n && forall i :: 0 <= i < n ==> z[i] == 0
  {
    seq(n, _ => 0)
  }

  /** Three pieces put together, taken apart again. */
  lemma ThreePieces(a: seq<Byte>, b: seq<Byte>, c: seq<Byte>)
    ensures (a + b + c)[..|a|] == a && (a + b + c)[|a|..|a| + |b|] == b && (a + b + c)[|a| + |b|..] == c
  {}

  function ReadLe16(b: seq<Byte>): u16
    requires |b| == 2
  {
    var low: int, high: int := b[0], b[1];
    low + 0x100 * high
  }

  function WriteLe16(v: u16): (b: seq<Byte>)
    ensures |b| == 2 && ReadLe16(b) == v
  {
    [v % 0x100, v / 0x100]
  }

  function ReadLe32(b: seq<Byte>): u32
    requires |b| == 4
  {
    ReadLe16(b[..2]) as int + 0x1_0000 * (ReadLe16(b[2..]) as int)
  }

  function WriteLe32(v: u32): (b: seq<Byte>)
    ensures |b| == 4 && ReadLe32(b) == v
  {
    var low, high := WriteLe16(v % 0x1_0000), WriteLe16(v / 0x1_0000);
    assert (low + high)[..2] == low && (low + high)[2..] == high;
    low + high
  }

  function ReadLe64(b: seq<Byte>): u64
    requires |b| == 8
  {
    ReadLe32(b[..4]) as int + 0x1_0000_0000 * (ReadLe32(b[4..]) as int)
  }

  function WriteLe64(v: u64): (b: seq<Byte>)
    ensures |b| == 8 && ReadLe64(b) == v
  {
    var low, high := WriteLe32(v % 0x1_0000_0000), WriteLe32(v / 0x1_0000_0000);
    assert (low + high)[..4] == low && (low + high)[4..] == high;
    low + high
  }

  lemma ReadLe64Injective(a: seq<Byte>, b: seq<Byte>)
    requires |a| == |b| == 8 && ReadLe64(a) == ReadLe64(b)
    ensures a == b
  {
    hide ReadLe32;
    ReadLe32Injective(a[..4], b[..4]);
    ReadLe32Injective(a[4..], b[4..]);
    assert a == a[..4] + a[4..] && b == b[..4] + b[4..];
  }

  lemma ReadLe16Injective(a: seq<Byte>, b: seq<Byte>)
    requires |a| == |b| == 2 && ReadLe16(a) == ReadLe16(b)
    ensures a == b
  {}

  lemma ReadLe32Injective(a: seq<Byte>, b: seq<Byte>)
    requires |a| == |b| == 4 && ReadLe32(a) == ReadLe32(b)
    ensures a == b
  {
    var aLow: int, aHigh: int := ReadLe16(a[..2]), ReadLe16(a[2..]);
    var bLow: int, bHigh: int := ReadLe16(b[..2]), ReadLe16(b[2..]);
    assert aLow + 0x1_0000 * aHigh == bLow + 0x1_0000 * bHigh;
    hide ReadLe16;
    assert aLow == bLow && aHigh == bHigh;
    ReadLe16Injective(a[..2], b[..2]);
    ReadLe16Injective(a[2..], b[2..]);
    assert a == a[..2] + a[2..] && b == b[..2] + b[2..];
  }
}
