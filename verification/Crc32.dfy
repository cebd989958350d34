/**
  CRC-32/ISO-HDLC as crc32.c computes it, bit by bit, and why it catches every single-byte change:
  each step is injective in the running remainder and in the byte, whatever the length.
*/
module Crc32 {
  import opened Bytes

  function Bit(crc: bv32): bv32 {
    (crc >> 1) ^ (if crc & 1 != 0 then 0xedb8_8320 else 0)
  }

  function Bits(crc: bv32, n: nat): bv32 {
    if n == 0 then crc else Bit(Bits(crc, n - 1))
  }

  function Step(crc: bv32, b: bv8): bv32 {
    Bits(crc ^ (b as bv32), 8)
  }

  /** The byte as a bit pattern, built from its two halves. */
  function Pattern(b: Byte): bv8 {
    (Nibble(b / 16) << 4) | Nibble(b % 16)
  }

  function Nibble(v: int): bv8
    requires 0 <= v < 16
  {
    match v
    case 0 => 0 case 1 => 1 case 2 => 2 case 3 => 3 case 4 => 4 case 5 => 5 case 6 => 6 case 7 => 7
    case 8 => 8 case 9 => 9 case 10 => 10 case 11 => 11 case 12 => 12 case 13 => 13 case 14 => 14 case _ => 15
  }

  function Remainder(crc: bv32, bytes: seq<Byte>): bv32 {
    if bytes == [] then crc
    else Step(Remainder(crc, bytes[..|bytes| - 1]), Pattern(bytes[|bytes| - 1]))
  }

  function Final(crc: bv32): bv32 {
    crc ^ 0xffff_ffff
  }

  function Crc(bytes: seq<Byte>): u32 {
    Value(Final(Remainder(0xffff_ffff, bytes)))
  }

  // ----- the register as bits and as a number ---------------------------------------------------------

  /** One of the eight highest bits, counted from the highest down. */
  predicate At(x: bv32, i: nat) {
    match i
    case 0 => x & 0x8000_0000 != 0
    case 1 => x & 0x4000_0000 != 0
    case 2 => x & 0x2000_0000 != 0
    case 3 => x & 0x1000_0000 != 0
    case 4 => x & 0x0800_0000 != 0
    case 5 => x & 0x0400_0000 != 0
    case 6 => x & 0x0200_0000 != 0
    case _ => x & 0x0100_0000 != 0
  }

  function Octet(x: bv32): (bits: seq<bool>)
    ensures |bits| == 8
  {
    [At(x, 0), At(x, 1), At(x, 2), At(x, 3), At(x, 4), At(x, 5), At(x, 6), At(x, 7)]
  }

  /** The register with its byte number `k`, counted from the top, at the top. */
  function Part(x: bv32, k: nat): bv32 {
    match k
    case 0 => x
    case 1 => x << 8
    case 2 => x << 16
    case _ => x << 24
  }

  /** All bits, from the highest down. */
  function BitList(x: bv32): (bits: seq<bool>)
    ensures |bits| == 32
  {
    Octet(Part(x, 0)) + Octet(Part(x, 1)) + Octet(Part(x, 2)) + Octet(Part(x, 3))
  }

  function Weight(bits: seq<bool>): nat {
    if bits == [] then 0
    else 2 * Weight(bits[..|bits| - 1]) + if bits[|bits| - 1] then 1 else 0
  }

  function Power(n: nat): nat {
    if n == 0 then 1 else 2 * Power(n - 1)
  }

  lemma {:induction false} WeightBounds(bits: seq<bool>)
    ensures Weight(bits) < Power(|bits|)
  {
    if bits != [] {
      WeightBounds(bits[..|bits| - 1]);
    }
  }

  lemma Power32()
    ensures Power(32) == 0x1_0000_0000
  {
    assert Power(8) == 0x100;
    assert Power(16) == 0x1_0000;
    assert Power(24) == 0x100_0000;
  }

  function Value(x: bv32): u32 {
    WeightBounds(BitList(x));
    Power32();
    Weight(BitList(x))
  }

  method Compute(bytes: seq<Byte>) returns (result: u32)
    ensures result == Crc(bytes)
  {
    var crc: bv32 := 0xffff_ffff;
    for index := 0 to |bytes|
      invariant crc == Remainder(0xffff_ffff, bytes[..index])
    {
      assert bytes[..index + 1][..index] == bytes[..index];
      crc := crc ^ (Pattern(bytes[index]) as bv32);
      ghost var mixed := crc;
      for bit := 0 to 8
        invariant crc == Bits(mixed, bit)
      {
        crc := (crc >> 1) ^ (if crc & 1 != 0 then 0xedb8_8320 else 0);
      }
    }
    assert bytes[..|bytes|] == bytes;
    result := Value(Final(crc));
  }

  lemma BitInjective(a: bv32, b: bv32)
    ensures Bit(a) == Bit(b) ==> a == b
  {}

  lemma {:induction false} BitsInjective(a: bv32, b: bv32, n: nat)
    requires Bits(a, n) == Bits(b, n)
    ensures a == b
  {
    if n > 0 {
      BitInjective(Bits(a, n - 1), Bits(b, n - 1));
      BitsInjective(a, b, n - 1);
    }
  }

  lemma NibbleInjective(v: int, w: int)
    requires 0 <= v < 16 && 0 <= w < 16 && Nibble(v) == Nibble(w)
    ensures v == w
  {}

  lemma NibbleSmall(v: int)
    requires 0 <= v < 16
    ensures Nibble(v) < 16
  {}

  lemma HalvesInjective(a: bv8, b: bv8, x: bv8, y: bv8)
    requires a < 16 && b < 16 && x < 16 && y < 16 && (a << 4) | x == (b << 4) | y
    ensures a == b && x == y
  {}

  lemma ByteInjective(v: Byte, w: Byte)
    requires Pattern(v) == Pattern(w)
    ensures v == w
  {
    NibbleSmall(v / 16);
    NibbleSmall(w / 16);
    NibbleSmall(v % 16);
    NibbleSmall(w % 16);
    HalvesInjective(Nibble(v / 16), Nibble(w / 16), Nibble(v % 16), Nibble(w % 16));
    NibbleInjective(v / 16, w / 16);
    NibbleInjective(v % 16, w % 16);
  }

  lemma XorInjective(a: bv32, b: bv32, x: bv8, y: bv8)
    requires a ^ (x as bv32) == b ^ (y as bv32) && (a == b || x == y)
    ensures a == b && x == y
  {}

  /** The step is injective in the running remainder and in the byte. */
  lemma StepInjective(a: bv32, b: bv32, x: bv8, y: bv8)
    requires Step(a, x) == Step(b, y) && (a == b || x == y)
    ensures a == b && x == y
  {
    BitsInjective(a ^ (x as bv32), b ^ (y as bv32), 8);
    XorInjective(a, b, x, y);
  }

  lemma FinalInjective(a: bv32, b: bv32)
    requires Final(a) == Final(b)
    ensures a == b
  {}

  lemma {:induction false} WeightInjective(a: seq<bool>, b: seq<bool>)
    requires |a| == |b| && Weight(a) == Weight(b)
    ensures a == b
  {
    if a != [] {
      WeightInjective(a[..|a| - 1], b[..|b| - 1]);
      assert a == a[..|a| - 1] + [a[|a| - 1]] && b == b[..|b| - 1] + [b[|b| - 1]];
    }
  }

  lemma EightInjective(a: bv32, b: bv32)
    requires At(a, 0) == At(b, 0) && At(a, 1) == At(b, 1) && At(a, 2) == At(b, 2) && At(a, 3) == At(b, 3)
    requires At(a, 4) == At(b, 4) && At(a, 5) == At(b, 5) && At(a, 6) == At(b, 6) && At(a, 7) == At(b, 7)
    ensures a & 0xff00_0000 == b & 0xff00_0000
  {}

  lemma OctetInjective(a: bv32, b: bv32)
    requires Octet(a) == Octet(b)
    ensures a & 0xff00_0000 == b & 0xff00_0000
  {
    hide At;
    var x, y := Octet(a), Octet(b);
    assert x[0] == y[0] && x[1] == y[1] && x[2] == y[2] && x[3] == y[3];
    assert x[4] == y[4] && x[5] == y[5] && x[6] == y[6] && x[7] == y[7];
    EightInjective(a, b);
  }

  lemma ListParts(x: bv32)
    ensures Octet(Part(x, 0)) == BitList(x)[..8] && Octet(Part(x, 1)) == BitList(x)[8..16]
    ensures Octet(Part(x, 2)) == BitList(x)[16..24] && Octet(Part(x, 3)) == BitList(x)[24..]
  {
    hide Octet, Part;
  }

  lemma ValueInjective(a: bv32, b: bv32)
    requires Value(a) == Value(b)
    ensures a == b
  {
    hide BitList, Octet, Part;
    WeightInjective(BitList(a), BitList(b));
    ListParts(a);
    ListParts(b);
    SameParts(a, b);
  }

  lemma SameParts(a: bv32, b: bv32)
    requires Octet(Part(a, 0)) == Octet(Part(b, 0)) && Octet(Part(a, 1)) == Octet(Part(b, 1))
    requires Octet(Part(a, 2)) == Octet(Part(b, 2)) && Octet(Part(a, 3)) == Octet(Part(b, 3))
    ensures a == b
  {
    hide Octet;
    OctetInjective(Part(a, 0), Part(b, 0));
    OctetInjective(Part(a, 1), Part(b, 1));
    OctetInjective(Part(a, 2), Part(b, 2));
    OctetInjective(Part(a, 3), Part(b, 3));
  }

  ghost predicate DifferOnlyAt(a: seq<Byte>, b: seq<Byte>, k: nat) {
    |a| == |b| && k < |a| && a[k] != b[k] && forall i :: 0 <= i < |a| && i != k ==> a[i] == b[i]
  }

  /** Changing one byte of an input of any length always changes the remainder. */
  lemma {:induction false} OneByteChangesRemainder(a: seq<Byte>, b: seq<Byte>, k: nat)
    requires DifferOnlyAt(a, b, k)
    ensures Remainder(0xffff_ffff, a) != Remainder(0xffff_ffff, b)
  {
    var n := |a| - 1;
    var ra, rb := Remainder(0xffff_ffff, a[..n]), Remainder(0xffff_ffff, b[..n]);
    if k == n {
      assert a[..n] == b[..n];
    } else {
      OneByteChangesRemainder(a[..n], b[..n], k);
    }
    if Step(ra, Pattern(a[n])) == Step(rb, Pattern(b[n])) {
      StepInjective(ra, rb, Pattern(a[n]), Pattern(b[n]));
      ByteInjective(a[n], b[n]);
    }
  }

  // ----- records that carry their own checksum ------------------------------------------------

  /** The record with its four checksum bytes at `at` zeroed, as all three record kinds compute it. */
  function Cleared(record: seq<Byte>, at: nat): seq<Byte>
    requires at + 4 <= |record|
  {
    record[..at] + Zeros(4) + record[at + 4..]
  }

  predicate Sealed(record: seq<Byte>, at: nat)
    requires at + 4 <= |record|
  {
    Crc(Cleared(record, at)) == ReadLe32(record[at..at + 4])
  }

  function Seal(record: seq<Byte>, at: nat): (r: seq<Byte>)
    requires at + 4 <= |record|
    ensures |r| == |record| && Sealed(r, at)
    ensures forall i :: 0 <= i < |r| && !(at <= i < at + 4) ==> r[i] == record[i]
  {
    var r := record[..at] + WriteLe32(Crc(Cleared(record, at))) + record[at + 4..];
    assert Cleared(r, at) == Cleared(record, at);
    assert r[at..at + 4] == WriteLe32(Crc(Cleared(record, at)));
    r
  }

  /** A sealed record is the seal of any record with the same content. */
  lemma SealIsUnique(d: seq<Byte>, body: seq<Byte>, at: nat)
    requires at + 4 <= |d| == |body| && Sealed(d, at) && Cleared(d, at) == Cleared(body, at)
    ensures Seal(body, at) == d
  {
    var r := Seal(body, at);
    assert Cleared(r, at) == Cleared(body, at);
    ReadLe32Injective(r[at..at + 4], d[at..at + 4]);
    forall i | 0 <= i < |d| ensures r[i] == d[i] {
      if at <= i < at + 4 {
        assert r[at..at + 4][i - at] == d[at..at + 4][i - at];
      } else {
        assert Cleared(r, at)[i] == Cleared(d, at)[i];
      }
    }
  }

  /** A sealed record of any size no longer checks out after any one of its bytes is changed. */
  lemma SingleByteChangeBreaksSeal(record: seq<Byte>, damaged: seq<Byte>, at: nat, k: nat)
    requires at + 4 <= |record| && Sealed(record, at) && DifferOnlyAt(record, damaged, k)
    ensures !Sealed(damaged, at)
  {
    var c, d := Cleared(record, at), Cleared(damaged, at);
    if at <= k < at + 4 {
      assert c == d;
      assert record[at..at + 4][k - at] != damaged[at..at + 4][k - at];
      if ReadLe32(record[at..at + 4]) == ReadLe32(damaged[at..at + 4]) {
        ReadLe32Injective(record[at..at + 4], damaged[at..at + 4]);
      }
    } else {
      assert DifferOnlyAt(c, d, k);
      assert record[at..at + 4] == damaged[at..at + 4];
      OneByteChangesRemainder(c, d, k);
      if Crc(c) == Crc(d) {
        ValueInjective(Final(Remainder(0xffff_ffff, c)), Final(Remainder(0xffff_ffff, d)));
        FinalInjective(Remainder(0xffff_ffff, c), Remainder(0xffff_ffff, d));
      }
    }
  }
}
