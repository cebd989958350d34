/**
  What CRC-32/ISO-HDLC is: division with remainder among polynomials over the field of two elements, with
  the message's bits as coefficients; and that the bitwise loop computes it for every input.
*/
module CrcDivision {
  import opened Bytes
  import opened Crc32

  // ----- polynomials --------------------------------------------------------------------------------

  /** A polynomial is the set of the exponents whose coefficient is one; a sum is a symmetric difference. */
  ghost function Plus(a: set<nat>, b: set<nat>): (c: set<nat>)
    ensures forall e :: e in c <==> (e in a) != (e in b)
  {
    (a - b) + (b - a)
  }

  /** Multiplication by a power of x. */
  ghost function Times(a: set<nat>, power: nat): (c: set<nat>)
    ensures forall e :: e in c <==> e >= power && e - power in a
  {
    var c := set e | e in a :: e + power;
    forall e | e >= power && e - power in a ensures e in c {
      assert (e - power) + power == e;
    }
    c
  }

  /** x^32 + x^26 + x^23 + x^22 + x^16 + x^12 + x^11 + x^10 + x^8 + x^7 + x^5 + x^4 + x^2 + x + 1 */
  ghost function Generator(): set<nat> {
    {32, 26, 23, 22, 16, 12, 11, 10, 8, 7, 5, 4, 2, 1, 0}
  }

  /** The generator times the sum of these powers of x. */
  ghost function Multiple(powers: seq<nat>): set<nat> {
    if powers == [] then {} else Plus(Multiple(powers[..|powers| - 1]), Times(Generator(), powers[|powers| - 1]))
  }

  /** The polynomials differ by a multiple of the generator. */
  ghost predicate Congruent(a: set<nat>, b: set<nat>) {
    exists powers: seq<nat> :: Plus(a, Multiple(powers)) == b
  }

  // ----- messages and checksums as polynomials ------------------------------------------------------

  /** Bit `j` of a number. */
  predicate BitOf(v: nat, j: nat) {
    if j == 0 then v % 2 == 1 else BitOf(v / 2, j - 1)
  }

  /** The message's bits, in each byte the lowest first, are the coefficients from the highest power down. */
  ghost function Message(bytes: seq<Byte>): set<nat> {
    set e: nat | 0 <= e < 8 * |bytes| && BitOf(bytes[|bytes| - 1 - e / 8], 7 - e % 8)
  }

  /** What is divided: the message times x^32, with its first 32 coefficients inverted. */
  ghost function Dividend(bytes: seq<Byte>): set<nat> {
    Plus(Times(Message(bytes), 32), Ones(8 * |bytes|))
  }

  ghost function Ones(low: nat): (c: set<nat>)
    ensures forall e :: e in c <==> low <= e < low + 32
  {
    Times((set e: nat | e < 32 && IsPlace(e)), low)
  }

  /** A place in a register of 32 bits. */
  ghost predicate IsPlace(e: nat) {
    e < 32
  }

  /** The polynomial below x^32 whose inverted coefficients are the checksum's bits, the lowest that of x^31. */
  ghost function Inverted(checksum: nat): set<nat> {
    set e: nat | e < 32 && IsPlace(e) && !BitOf(checksum, 31 - e)
  }

  /** The checksum of any input is the inverted remainder of its division by the generator, and nothing else is. */
  lemma CrcIsTheRemainder(bytes: seq<Byte>, checksum: u32)
    ensures checksum == Crc(bytes) <==> Congruent(Dividend(bytes), Inverted(checksum))
  {
    hide Congruent, Dividend, Crc;
    CrcIsRemainder(bytes);
    if Congruent(Dividend(bytes), Inverted(checksum)) {
      RemainderUnique(Dividend(bytes), Inverted(checksum), Inverted(Crc(bytes)));
      Power32();
      forall j: nat | j < 32 ensures BitOf(checksum, j) == BitOf(Crc(bytes), j) {
        assert 31 - j in Inverted(checksum) <==> 31 - j in Inverted(Crc(bytes));
        assert 31 - (31 - j) == j;
      }
      SameBits(checksum, Crc(bytes), 32);
    }
  }

  lemma {:induction false} SameBits(a: nat, b: nat, n: nat)
    requires a < Power(n) && b < Power(n)
    requires forall j: nat | j < n :: BitOf(a, j) == BitOf(b, j)
    ensures a == b
  {
    hide BitOf;
    if n > 0 {
      LowBit(a);
      LowBit(b);
      forall j: nat | j < n - 1 ensures BitOf(a / 2, j) == BitOf(b / 2, j) {
        BitStep(a, j + 1);
        BitStep(b, j + 1);
      }
      SameBits(a / 2, b / 2, n - 1);
    }
  }

  lemma CrcIsRemainder(bytes: seq<Byte>)
    ensures Congruent(Dividend(bytes), Inverted(Crc(bytes)))
  {
    hide BitList, Final, Weight, Value;
    var r := Remainder(0xffff_ffff, bytes);
    RemainderIsCongruent(bytes);
    forall e: nat | e < 32 ensures e in Poly(r) <==> e in Inverted(Crc(bytes)) {
      ValueBit(Final(r), e);
      FinalInverts(r, e);
    }
    assert Poly(r) == Inverted(Crc(bytes));
  }

  // ----- the register -------------------------------------------------------------------------------

  /** The register as a polynomial: its highest bit is the coefficient of x^0. */
  ghost function Poly(x: bv32): set<nat> {
    set e: nat | 0 <= e < 32 && BitList(x)[e]
  }

  lemma {:induction false} WeightBit(bits: seq<bool>, j: nat)
    requires j < |bits|
    ensures BitOf(Weight(bits), j) == bits[|bits| - 1 - j]
  {
    hide BitOf;
    var w, front := Weight(bits), bits[..|bits| - 1];
    assert w == 2 * Weight(front) + if bits[|bits| - 1] then 1 else 0;
    HalfOf(w, Weight(front), bits[|bits| - 1]);
    hide Weight;
    if j == 0 {
      LowBit(w);
    } else {
      BitStep(w, j);
      WeightBit(front, j - 1);
    }
  }

  lemma HalfOf(w: nat, half: nat, odd: bool)
    requires w == 2 * half + if odd then 1 else 0
    ensures w / 2 == half && (w % 2 == 1 <==> odd)
  {}

  lemma ValueBit(x: bv32, e: nat)
    requires e < 32
    ensures BitOf(Value(x), 31 - e) == BitList(x)[e]
  {
    hide BitList;
    WeightBit(BitList(x), 31 - e);
  }

  lemma PartBit(x: bv32, k: nat, i: nat)
    requires k < 4 && i < 8
    ensures BitList(x)[8 * k + i] == Octet(Part(x, k))[i]
  {
    hide Octet, Part;
  }

  predicate IsXor(x: bv32, y: bv32, z: bv32) {
    z == x ^ y
  }

  predicate Differ(a: bool, b: bool) {
    a != b
  }

  lemma MasksDiffer(x: bv32, y: bv32, z: bv32)
    requires z == x ^ y
    ensures (z & 0x8000_0000 != 0) == Differ(x & 0x8000_0000 != 0, y & 0x8000_0000 != 0)
    ensures (z & 0x4000_0000 != 0) == Differ(x & 0x4000_0000 != 0, y & 0x4000_0000 != 0)
    ensures (z & 0x2000_0000 != 0) == Differ(x & 0x2000_0000 != 0, y & 0x2000_0000 != 0)
    ensures (z & 0x1000_0000 != 0) == Differ(x & 0x1000_0000 != 0, y & 0x1000_0000 != 0)
    ensures (z & 0x0800_0000 != 0) == Differ(x & 0x0800_0000 != 0, y & 0x0800_0000 != 0)
    ensures (z & 0x0400_0000 != 0) == Differ(x & 0x0400_0000 != 0, y & 0x0400_0000 != 0)
    ensures (z & 0x0200_0000 != 0) == Differ(x & 0x0200_0000 != 0, y & 0x0200_0000 != 0)
    ensures (z & 0x0100_0000 != 0) == Differ(x & 0x0100_0000 != 0, y & 0x0100_0000 != 0)
  {}

  lemma EightDiffer(x: bv32, y: bv32, z: bv32)
    requires IsXor(x, y, z)
    ensures At(z, 0) == Differ(At(x, 0), At(y, 0)) && At(z, 1) == Differ(At(x, 1), At(y, 1))
    ensures At(z, 2) == Differ(At(x, 2), At(y, 2)) && At(z, 3) == Differ(At(x, 3), At(y, 3))
    ensures At(z, 4) == Differ(At(x, 4), At(y, 4)) && At(z, 5) == Differ(At(x, 5), At(y, 5))
    ensures At(z, 6) == Differ(At(x, 6), At(y, 6)) && At(z, 7) == Differ(At(x, 7), At(y, 7))
  {
    hide Differ, At;
    MasksDiffer(x, y, z);
    AtMask(x);
    AtMask(y);
    AtMask(z);
  }

  lemma AtMask(x: bv32)
    ensures At(x, 0) == (x & 0x8000_0000 != 0) && At(x, 1) == (x & 0x4000_0000 != 0)
    ensures At(x, 2) == (x & 0x2000_0000 != 0) && At(x, 3) == (x & 0x1000_0000 != 0)
    ensures At(x, 4) == (x & 0x0800_0000 != 0) && At(x, 5) == (x & 0x0400_0000 != 0)
    ensures At(x, 6) == (x & 0x0200_0000 != 0) && At(x, 7) == (x & 0x0100_0000 != 0)
  {}

  lemma OctetAt(x: bv32)
    ensures Octet(x)[0] == At(x, 0) && Octet(x)[1] == At(x, 1) && Octet(x)[2] == At(x, 2) && Octet(x)[3] == At(x, 3)
    ensures Octet(x)[4] == At(x, 4) && Octet(x)[5] == At(x, 5) && Octet(x)[6] == At(x, 6) && Octet(x)[7] == At(x, 7)
  {
    hide At;
  }

  lemma OctetXors(x: bv32, y: bv32, z: bv32, i: nat)
    requires i < 8 && IsXor(x, y, z)
    ensures Octet(z)[i] == Differ(Octet(x)[i], Octet(y)[i])
  {
    hide Octet, At, IsXor, Differ;
    EightDiffer(x, y, z);
    OctetAt(x);
    OctetAt(y);
    OctetAt(z);
    PickDiffer(Octet(x), Octet(y), Octet(z), i);
  }

  lemma PickDiffer(a: seq<bool>, b: seq<bool>, c: seq<bool>, i: nat)
    requires |a| == |b| == |c| == 8 && i < 8
    requires c[0] == Differ(a[0], b[0]) && c[1] == Differ(a[1], b[1]) && c[2] == Differ(a[2], b[2])
    requires c[3] == Differ(a[3], b[3]) && c[4] == Differ(a[4], b[4]) && c[5] == Differ(a[5], b[5])
    requires c[6] == Differ(a[6], b[6]) && c[7] == Differ(a[7], b[7])
    ensures c[i] == Differ(a[i], b[i])
  {
    hide Differ;
  }

  lemma PartXors(x: bv32, y: bv32, z: bv32, k: nat)
    requires IsXor(x, y, z)
    ensures IsXor(Part(x, k), Part(y, k), Part(z, k))
  {
    hide Part;
    PartOfXor(x, y, k);
  }

  lemma PartOfXor(x: bv32, y: bv32, k: nat)
    ensures Part(x ^ y, k) == Part(x, k) ^ Part(y, k)
  {
    if k == 1 {
      ShiftsXor(x, y);
    } else if k == 2 {
      ShiftsXor(x, y);
    } else if k != 0 {
      ShiftsXor(x, y);
    }
  }

  lemma ShiftsXor(x: bv32, y: bv32)
    ensures (x ^ y) << 8 == (x << 8) ^ (y << 8)
    ensures (x ^ y) << 16 == (x << 16) ^ (y << 16)
    ensures (x ^ y) << 24 == (x << 24) ^ (y << 24)
  {}

  lemma PolyXor(x: bv32, y: bv32, z: bv32)
    requires IsXor(x, y, z)
    ensures Poly(z) == Plus(Poly(x), Poly(y))
  {
    hide Octet, BitList, Part, IsXor;
    forall e: nat | e < 32 ensures BitList(z)[e] == (BitList(x)[e] != BitList(y)[e]) {
      var k, i := e / 8, e % 8;
      PartBit(x, k, i);
      PartBit(y, k, i);
      PartBit(z, k, i);
      PartXors(x, y, z, k);
      OctetXors(Part(x, k), Part(y, k), Part(z, k), i);
    }
  }

  lemma FinalInverts(x: bv32, e: nat)
    requires e < 32
    ensures BitList(Final(x))[e] == !BitList(x)[e]
  {
    assert IsXor(x, 0xffff_ffff, Final(x));
    hide Octet, BitList, Poly, Final, IsXor;
    PolyXor(x, 0xffff_ffff, Final(x));
    AllOnes();
    PolyAt(x, e);
    PolyAt(Final(x), e);
  }

  lemma PolyAt(x: bv32, e: nat)
    requires e < 32
    ensures e in Poly(x) <==> BitList(x)[e]
  {}

  lemma AllOnes()
    ensures Poly(0xffff_ffff) == Ones(0)
  {
    hide Octet, BitList, Part;
    forall e: nat | e < 32 ensures BitList(0xffff_ffff)[e] {
      PartBit(0xffff_ffff, e / 8, e % 8);
      OnesOctets(e / 8);
    }
  }

  lemma OnesOctets(k: nat)
    requires k < 4
    ensures Octet(Part(0xffff_ffff, k)) == [true, true, true, true, true, true, true, true]
  {}

  // ----- one bit: times x, and the generator taken off ------------------------------------------------

  predicate Low(x: bv32) {
    x & 1 != 0
  }

  lemma EightBits0(x: bv32)
    ensures At(Part(Bit(x), 0), 0) == Low(x)
    ensures At(Part(Bit(x), 0), 1) == Differ(At(Part(x, 0), 0), Low(x))
    ensures At(Part(Bit(x), 0), 2) == Differ(At(Part(x, 0), 1), Low(x))
    ensures At(Part(Bit(x), 0), 3) == At(Part(x, 0), 2)
    ensures At(Part(Bit(x), 0), 4) == Differ(At(Part(x, 0), 3), Low(x))
    ensures At(Part(Bit(x), 0), 5) == Differ(At(Part(x, 0), 4), Low(x))
    ensures At(Part(Bit(x), 0), 6) == At(Part(x, 0), 5)
    ensures At(Part(Bit(x), 0), 7) == Differ(At(Part(x, 0), 6), Low(x))
  {}

  lemma EightBits1(x: bv32)
    ensures At(Part(Bit(x), 1), 0) == Differ(At(Part(x, 0), 7), Low(x))
    ensures At(Part(Bit(x), 1), 1) == At(Part(x, 1), 0)
    ensures At(Part(Bit(x), 1), 2) == Differ(At(Part(x, 1), 1), Low(x))
    ensures At(Part(Bit(x), 1), 3) == Differ(At(Part(x, 1), 2), Low(x))
    ensures At(Part(Bit(x), 1), 4) == Differ(At(Part(x, 1), 3), Low(x))
    ensures At(Part(Bit(x), 1), 5) == At(Part(x, 1), 4)
    ensures At(Part(Bit(x), 1), 6) == At(Part(x, 1), 5)
    ensures At(Part(Bit(x), 1), 7) == At(Part(x, 1), 6)
  {}

  lemma EightBits2(x: bv32)
    ensures At(Part(Bit(x), 2), 0) == Differ(At(Part(x, 1), 7), Low(x))
    ensures At(Part(Bit(x), 2), 1) == At(Part(x, 2), 0)
    ensures At(Part(Bit(x), 2), 2) == At(Part(x, 2), 1)
    ensures At(Part(Bit(x), 2), 3) == At(Part(x, 2), 2)
    ensures At(Part(Bit(x), 2), 4) == At(Part(x, 2), 3)
    ensures At(Part(Bit(x), 2), 5) == At(Part(x, 2), 4)
    ensures At(Part(Bit(x), 2), 6) == Differ(At(Part(x, 2), 5), Low(x))
    ensures At(Part(Bit(x), 2), 7) == Differ(At(Part(x, 2), 6), Low(x))
  {}

  lemma EightBits3(x: bv32)
    ensures At(Part(Bit(x), 3), 0) == At(Part(x, 2), 7)
    ensures At(Part(Bit(x), 3), 1) == At(Part(x, 3), 0)
    ensures At(Part(Bit(x), 3), 2) == Differ(At(Part(x, 3), 1), Low(x))
    ensures At(Part(Bit(x), 3), 3) == At(Part(x, 3), 2)
    ensures At(Part(Bit(x), 3), 4) == At(Part(x, 3), 3)
    ensures At(Part(Bit(x), 3), 5) == At(Part(x, 3), 4)
    ensures At(Part(Bit(x), 3), 6) == At(Part(x, 3), 5)
    ensures At(Part(Bit(x), 3), 7) == At(Part(x, 3), 6)
  {}

  lemma Place0(a: seq<bool>, b: seq<bool>, c: bool, next: seq<bool>, e: nat)
    requires |a| == |b| == |next| == 8 && e < 8
    requires next[0] == c && next[1] == Differ(a[0], c) && next[2] == Differ(a[1], c) && next[3] == a[2]
    requires next[4] == Differ(a[3], c) && next[5] == Differ(a[4], c) && next[6] == a[5] && next[7] == Differ(a[6], c)
    ensures next[e] <==> ((if e == 0 then false else a[e - 1]) != (c && e in Generator()))
  {}

  lemma Place1(a: seq<bool>, b: seq<bool>, c: bool, next: seq<bool>, e: nat)
    requires |a| == |b| == |next| == 8 && e < 8
    requires next[0] == Differ(b[7], c) && next[1] == a[0] && next[2] == Differ(a[1], c) && next[3] == Differ(a[2], c)
    requires next[4] == Differ(a[3], c) && next[5] == a[4] && next[6] == a[5] && next[7] == a[6]
    ensures next[e] <==> ((if e == 0 then b[7] else a[e - 1]) != (c && 8 + e in Generator()))
  {}

  lemma Place2(a: seq<bool>, b: seq<bool>, c: bool, next: seq<bool>, e: nat)
    requires |a| == |b| == |next| == 8 && e < 8
    requires next[0] == Differ(b[7], c) && next[1] == a[0] && next[2] == a[1] && next[3] == a[2]
    requires next[4] == a[3] && next[5] == a[4] && next[6] == Differ(a[5], c) && next[7] == Differ(a[6], c)
    ensures next[e] <==> ((if e == 0 then b[7] else a[e - 1]) != (c && 16 + e in Generator()))
  {}

  lemma Place3(a: seq<bool>, b: seq<bool>, c: bool, next: seq<bool>, e: nat)
    requires |a| == |b| == |next| == 8 && e < 8
    requires next[0] == b[7] && next[1] == a[0] && next[2] == Differ(a[1], c) && next[3] == a[2]
    requires next[4] == a[3] && next[5] == a[4] && next[6] == a[5] && next[7] == a[6]
    ensures next[e] <==> ((if e == 0 then b[7] else a[e - 1]) != (c && 24 + e in Generator()))
  {}

  /** The register after one bit is the register times x, and the generator taken off if that reaches x^32. */
  lemma BitPlace(x: bv32, e: nat)
    requires e < 32
    ensures BitList(Bit(x))[e] <==> (e > 0 && BitList(x)[e - 1]) != (BitList(x)[31] && e in Generator())
  {
    hide Octet, BitList, Bit, Part, Low, Generator;
    PartBit(x, 3, 7);
    LowestBit(x);
    if e < 8 {
      PartPlace0(x, e);
    } else if e < 16 {
      PartPlace1(x, e);
    } else if e < 24 {
      PartPlace2(x, e);
    } else {
      PartPlace3(x, e);
    }
  }

  lemma PartPlace0(x: bv32, e: nat)
    requires 0 <= e < 8
    ensures BitList(Bit(x))[e] <==> (e > 0 && BitList(x)[e - 1]) != (Low(x) && e in Generator())
  {
    hide Octet, BitList, Bit, Part, Low, Generator, At, Differ;
    EightBits0(x);
    OctetAt(Part(x, 0));
    OctetAt(Part(Bit(x), 0));
    PartBit(Bit(x), 0, e - 0);
    if e > 0 {
      PartBit(x, 0, e - 1);
    }
    Place0(Octet(Part(x, 0)), Octet(Part(x, 0)), Low(x), Octet(Part(Bit(x), 0)), e - 0);
  }

  lemma PartPlace1(x: bv32, e: nat)
    requires 8 <= e < 16
    ensures BitList(Bit(x))[e] <==> (e > 0 && BitList(x)[e - 1]) != (Low(x) && e in Generator())
  {
    hide Octet, BitList, Bit, Part, Low, Generator, At, Differ;
    EightBits1(x);
    OctetAt(Part(x, 1));
    OctetAt(Part(x, 0));
    OctetAt(Part(Bit(x), 1));
    PartBit(Bit(x), 1, e - 8);
    if e > 8 {
      PartBit(x, 1, e - 9);
    } else {
      PartBit(x, 0, 7);
    }
    Place1(Octet(Part(x, 1)), Octet(Part(x, 0)), Low(x), Octet(Part(Bit(x), 1)), e - 8);
  }

  lemma PartPlace2(x: bv32, e: nat)
    requires 16 <= e < 24
    ensures BitList(Bit(x))[e] <==> (e > 0 && BitList(x)[e - 1]) != (Low(x) && e in Generator())
  {
    hide Octet, BitList, Bit, Part, Low, Generator, At, Differ;
    EightBits2(x);
    OctetAt(Part(x, 2));
    OctetAt(Part(x, 1));
    OctetAt(Part(Bit(x), 2));
    PartBit(Bit(x), 2, e - 16);
    if e > 16 {
      PartBit(x, 2, e - 17);
    } else {
      PartBit(x, 1, 7);
    }
    Place2(Octet(Part(x, 2)), Octet(Part(x, 1)), Low(x), Octet(Part(Bit(x), 2)), e - 16);
  }

  lemma PartPlace3(x: bv32, e: nat)
    requires 24 <= e < 32
    ensures BitList(Bit(x))[e] <==> (e > 0 && BitList(x)[e - 1]) != (Low(x) && e in Generator())
  {
    hide Octet, BitList, Bit, Part, Low, Generator, At, Differ;
    EightBits3(x);
    OctetAt(Part(x, 3));
    OctetAt(Part(x, 2));
    OctetAt(Part(Bit(x), 3));
    PartBit(Bit(x), 3, e - 24);
    if e > 24 {
      PartBit(x, 3, e - 25);
    } else {
      PartBit(x, 2, 7);
    }
    Place3(Octet(Part(x, 3)), Octet(Part(x, 2)), Low(x), Octet(Part(Bit(x), 3)), e - 24);
  }

  lemma GeneratorTop()
    ensures 32 in Generator() && forall e :: e in Generator() ==> e <= 32
  {}

  lemma LowestBit(x: bv32)
    ensures Octet(Part(x, 3))[7] == Low(x)
  {}

  lemma BitIsTimesX(x: bv32)
    ensures Congruent(Times(Poly(x), 1), Poly(Bit(x)))
  {
    hide Bit, BitList, Generator;
    GeneratorTop();
    var powers: seq<nat> := if BitList(x)[31] then [0] else [];
    assert Multiple([]) == {};
    assert Multiple([0]) == Generator() by {
      assert [0][..0] == [];
    }
    forall e: nat ensures e in Plus(Times(Poly(x), 1), Multiple(powers)) <==> e in Poly(Bit(x)) {
      if e < 32 {
        BitPlace(x, e);
      }
    }
    assert Plus(Times(Poly(x), 1), Multiple(powers)) == Poly(Bit(x));
  }

  lemma {:induction false} BitsAreTimes(x: bv32, n: nat)
    ensures Congruent(Times(Poly(x), n), Poly(Bits(x, n)))
  {
    hide Poly, Bit, Generator, Congruent;
    if n == 0 {
      SameIsCongruent(Times(Poly(x), 0), Poly(x));
    } else {
      var y := Bits(x, n - 1);
      BitsAreTimes(x, n - 1);
      CongruentTimes(Times(Poly(x), n - 1), Poly(y), 1);
      TimesTwice(Poly(x), n - 1, 1);
      BitIsTimesX(y);
      CongruentThrough(Times(Poly(x), n), Times(Poly(y), 1), Poly(Bit(y)));
    }
  }

  // ----- congruence ---------------------------------------------------------------------------------

  lemma {:induction false} MultiplesAdd(p: seq<nat>, q: seq<nat>)
    ensures Multiple(p + q) == Plus(Multiple(p), Multiple(q))
  {
    if q == [] {
      assert p + q == p;
    } else {
      var front := q[..|q| - 1];
      MultiplesAdd(p, front);
      assert (p + q)[..|p + q| - 1] == p + front;
    }
  }

  lemma SameIsCongruent(a: set<nat>, b: set<nat>)
    requires forall e :: e in a <==> e in b
    ensures Congruent(a, b)
  {
    assert Plus(a, Multiple([])) == b;
  }

  lemma TimesTwice(a: set<nat>, p: nat, q: nat)
    ensures Times(Times(a, p), q) == Times(a, p + q)
  {}

  lemma CongruentThrough(a: set<nat>, b: set<nat>, c: set<nat>)
    requires Congruent(a, b) && Congruent(b, c)
    ensures Congruent(a, c)
  {
    var p: seq<nat> :| Plus(a, Multiple(p)) == b;
    var q: seq<nat> :| Plus(b, Multiple(q)) == c;
    MultiplesAdd(p, q);
    assert Plus(a, Multiple(p + q)) == c;
  }

  lemma TimesPlus(a: set<nat>, b: set<nat>, power: nat)
    ensures Times(Plus(a, b), power) == Plus(Times(a, power), Times(b, power))
  {}

  lemma {:induction false} MultipleTimes(p: seq<nat>, power: nat) returns (q: seq<nat>)
    ensures Multiple(q) == Times(Multiple(p), power)
  {
    hide Generator;
    if p == [] {
      q := [];
    } else {
      var rest := MultipleTimes(p[..|p| - 1], power);
      q := rest + [p[|p| - 1] + power];
      assert q[..|q| - 1] == rest;
      TimesPlus(Multiple(p[..|p| - 1]), Times(Generator(), p[|p| - 1]), power);
      TimesTwice(Generator(), p[|p| - 1], power);
    }
  }

  lemma CongruentTimes(a: set<nat>, b: set<nat>, power: nat)
    requires Congruent(a, b)
    ensures Congruent(Times(a, power), Times(b, power))
  {
    var p: seq<nat> :| Plus(a, Multiple(p)) == b;
    var q := MultipleTimes(p, power);
    assert Plus(Times(a, power), Multiple(q)) == Times(b, power);
  }

  lemma CongruentPlus(a: set<nat>, b: set<nat>, c: set<nat>)
    requires Congruent(a, b)
    ensures Congruent(Plus(a, c), Plus(b, c))
  {
    var p: seq<nat> :| Plus(a, Multiple(p)) == b;
    assert Plus(Plus(a, c), Multiple(p)) == Plus(b, c);
  }

  // ----- a remainder is unique ------------------------------------------------------------------------

  ghost predicate OddCount(p: seq<nat>, t: nat) {
    if p == [] then false else OddCount(p[..|p| - 1], t) != (p[|p| - 1] == t)
  }

  ghost function Without(p: seq<nat>, t: nat): (q: seq<nat>)
    ensures |q| <= |p| && (t in p ==> |q| < |p|)
    ensures forall i :: 0 <= i < |q| ==> q[i] in p && q[i] != t
  {
    if p == [] then []
    else Without(p[..|p| - 1], t) + if p[|p| - 1] == t then [] else [p[|p| - 1]]
  }

  lemma {:induction false} TakenOut(p: seq<nat>, t: nat)
    ensures Multiple(p) ==
            Plus(Multiple(Without(p, t)), if OddCount(p, t) then Times(Generator(), t) else {})
  {
    hide Generator;
    if p != [] {
      var front, last := p[..|p| - 1], p[|p| - 1];
      TakenOut(front, t);
      var rest, taken := Without(front, t), if OddCount(front, t) then Times(Generator(), t) else {};
      if last == t {
        assert Without(p, t) == rest;
        assert Plus(Plus(Multiple(rest), taken), Times(Generator(), t)) ==
               Plus(Multiple(rest), if OddCount(p, t) then Times(Generator(), t) else {});
      } else {
        var q := rest + [last];
        assert q[..|q| - 1] == rest;
        assert Multiple(q) == Plus(Multiple(rest), Times(Generator(), last));
        assert Plus(Plus(Multiple(rest), taken), Times(Generator(), last)) == Plus(Multiple(q), taken);
      }
    }
  }

  lemma {:induction false} MultipleBelow(p: seq<nat>, t: nat)
    requires forall i :: 0 <= i < |p| ==> p[i] < t
    ensures forall e :: e in Multiple(p) ==> e < t + 32
  {
    hide Generator;
    GeneratorTop();
    if p != [] {
      MultipleBelow(p[..|p| - 1], t);
    }
  }

  lemma {:induction false} Largest(p: seq<nat>) returns (t: nat)
    requires p != []
    ensures t in p && forall i :: 0 <= i < |p| ==> p[i] <= t
  {
    var front, last := p[..|p| - 1], p[|p| - 1];
    assert p == front + [last];
    t := last;
    if front != [] {
      var top := Largest(front);
      if top > last {
        t := top;
      }
    }
  }

  /** No multiple of the generator but zero lies below x^32. */
  lemma {:induction false} NoSmallMultiple(p: seq<nat>)
    requires forall e :: e in Multiple(p) ==> e < 32
    ensures Multiple(p) == {}
    decreases |p|
  {
    hide Generator, Multiple;
    if p == [] {
      NothingMultiplied();
    } else {
      var t := Largest(p);
      TakenOut(p, t);
      MultipleBelow(Without(p, t), t);
      GeneratorTop();
      assert !OddCount(p, t) by {
        assert t + 32 in Multiple(p) <==> OddCount(p, t);
      }
      assert Multiple(p) == Multiple(Without(p, t));
      NoSmallMultiple(Without(p, t));
    }
  }

  lemma NothingMultiplied()
    ensures Multiple([]) == {}
  {}

  lemma RemainderUnique(a: set<nat>, r: set<nat>, s: set<nat>)
    requires Congruent(a, r) && Congruent(a, s)
    requires (forall e :: e in r ==> e < 32) && forall e :: e in s ==> e < 32
    ensures r == s
  {
    hide Multiple;
    var p: seq<nat> :| Plus(a, Multiple(p)) == r;
    var q: seq<nat> :| Plus(a, Multiple(q)) == s;
    MultiplesAdd(p, q);
    assert Multiple(p + q) == Plus(r, s);
    NoSmallMultiple(p + q);
  }

  // ----- one byte -----------------------------------------------------------------------------------

  /** A byte's bits where the register takes them in. */
  ghost function ByteTop(b: Byte): set<nat> {
    set e: nat | 24 <= e < 32 && IsPlace(e) && BitOf(b, 31 - e)
  }

  lemma NibbleBits(v: int, p: bv8)
    requires 0 <= v < 16 && p == Nibble(v)
    ensures p < 16 && (p & 8 != 0 <==> v / 8 % 2 == 1) && (p & 4 != 0 <==> v / 4 % 2 == 1)
    ensures (p & 2 != 0 <==> v / 2 % 2 == 1) && (p & 1 != 0 <==> v % 2 == 1)
  {}

  lemma PatternParts(h: bv8, l: bv8)
    requires h < 16 && l < 16
    ensures var x := ((h << 4) | l) as bv32;
      && Octet(Part(x, 0)) == Octet(Part(x, 1)) == Octet(Part(x, 2)) == NOTHING
      && Octet(Part(x, 3)) == [h & 8 != 0, h & 4 != 0, h & 2 != 0, h & 1 != 0,
                               l & 8 != 0, l & 4 != 0, l & 2 != 0, l & 1 != 0]
  {}

  const NOTHING: seq<bool> := [false, false, false, false, false, false, false, false]

  lemma ByteBits(b: Byte)
    ensures BitOf(b, 7) == (b / 16 / 8 % 2 == 1) && BitOf(b, 6) == (b / 16 / 4 % 2 == 1)
    ensures BitOf(b, 5) == (b / 16 / 2 % 2 == 1) && BitOf(b, 4) == (b / 16 % 2 == 1)
    ensures BitOf(b, 3) == (b % 16 / 8 % 2 == 1) && BitOf(b, 2) == (b % 16 / 4 % 2 == 1)
    ensures BitOf(b, 1) == (b % 16 / 2 % 2 == 1) && BitOf(b, 0) == (b % 16 % 2 == 1)
  {
    hide BitOf;
    FourBits(b);
    FourBits(b / 16);
    HighBits(b, 4);
    HighBits(b, 5);
    HighBits(b, 6);
    HighBits(b, 7);
    LowHalf(b / 16, b % 16);
  }

  lemma LowHalf(h: nat, l: nat)
    requires l < 16
    ensures (16 * h + l) / 8 % 2 == l / 8 % 2 && (16 * h + l) / 4 % 2 == l / 4 % 2
    ensures (16 * h + l) / 2 % 2 == l / 2 % 2 && (16 * h + l) % 2 == l % 2
  {
    Eighths(h, l);
    Quarters(h, l);
    Halves(h, l);
    EvenPlus(h, l / 8);
    EvenPlus(2 * h, l / 4);
    EvenPlus(4 * h, l / 2);
    EvenPlus(8 * h, l);
  }

  lemma EvenPlus(a: nat, b: nat)
    ensures (2 * a + b) % 2 == b % 2
  {}

  lemma Halves(h: nat, l: nat)
    ensures (16 * h + l) / 2 == 8 * h + l / 2
  {}

  lemma Eighths(h: nat, l: nat)
    ensures (16 * h + l) / 8 == 2 * h + l / 8
  {}

  lemma Quarters(h: nat, l: nat)
    ensures (16 * h + l) / 4 == 4 * h + l / 4
  {}

  lemma BitStep(v: nat, j: nat)
    requires j > 0
    ensures BitOf(v, j) == BitOf(v / 2, j - 1)
  {}

  lemma HighBits(v: nat, j: nat)
    requires j >= 4
    ensures BitOf(v, j) == BitOf(v / 16, j - 4)
  {
    hide BitOf;
    BitStep(v, j);
    BitStep(v / 2, j - 1);
    BitStep(v / 4, j - 2);
    BitStep(v / 8, j - 3);
    assert v / 2 / 2 == v / 4 && v / 4 / 2 == v / 8 && v / 8 / 2 == v / 16;
  }

  lemma LowBit(v: nat)
    ensures BitOf(v, 0) == (v % 2 == 1)
  {}

  lemma FourBits(v: nat)
    ensures BitOf(v, 3) == (v / 8 % 2 == 1) && BitOf(v, 2) == (v / 4 % 2 == 1)
    ensures BitOf(v, 1) == (v / 2 % 2 == 1) && BitOf(v, 0) == (v % 2 == 1)
  {
    hide BitOf;
    BitStep(v, 3);
    BitStep(v, 2);
    BitStep(v, 1);
    BitStep(v / 2, 2);
    BitStep(v / 2, 1);
    BitStep(v / 4, 1);
    assert v / 2 / 2 == v / 4 && v / 4 / 2 == v / 8;
    LowBit(v);
    LowBit(v / 2);
    LowBit(v / 4);
    LowBit(v / 8);
  }

  lemma PatternBits(b: Byte)
    ensures var x := Pattern(b) as bv32;
      && Octet(Part(x, 0)) == Octet(Part(x, 1)) == Octet(Part(x, 2)) == NOTHING
      && Octet(Part(x, 3)) == [BitOf(b, 7), BitOf(b, 6), BitOf(b, 5), BitOf(b, 4),
                               BitOf(b, 3), BitOf(b, 2), BitOf(b, 1), BitOf(b, 0)]
  {
    hide Octet, Part, Nibble, BitOf;
    NibbleBits(b / 16, Nibble(b / 16));
    NibbleBits(b % 16, Nibble(b % 16));
    PatternParts(Nibble(b / 16), Nibble(b % 16));
    ByteBits(b);
  }

  lemma PatternIsByteTop(b: Byte)
    ensures Poly(Pattern(b) as bv32) == ByteTop(b)
  {
    var x := Pattern(b) as bv32;
    PatternBits(b);
    hide Octet, BitList, Pattern, BitOf, Part;
    forall e: nat | e < 32 ensures BitList(x)[e] <==> e >= 24 && BitOf(b, 31 - e) {
      PartBit(x, e / 8, e % 8);
      if e >= 24 {
        PickBit(b, Octet(Part(x, 3)), e - 24);
      }
    }
  }

  lemma PickBit(b: Byte, bits: seq<bool>, i: nat)
    requires i < 8 && bits == [BitOf(b, 7), BitOf(b, 6), BitOf(b, 5), BitOf(b, 4),
                               BitOf(b, 3), BitOf(b, 2), BitOf(b, 1), BitOf(b, 0)]
    ensures bits[i] == BitOf(b, 7 - i)
  {
    hide BitOf;
  }

  lemma MessageGrows(front: seq<Byte>, b: Byte, e: nat)
    ensures e in Message(front + [b]) <==> if e < 8 then BitOf(b, 7 - e) else e - 8 in Message(front)
  {
    hide BitOf;
    var all := front + [b];
    if 8 <= e < 8 * |all| {
      var k := e / 8;
      assert (e - 8) / 8 == k - 1 && (e - 8) % 8 == e % 8;
      assert all[|all| - 1 - k] == front[|front| - 1 - (k - 1)];
    }
  }

  lemma DividendGrows(front: seq<Byte>, b: Byte)
    ensures Dividend(front + [b]) == Times(Plus(Dividend(front), ByteTop(b)), 8)
  {
    hide BitOf, Message;
    var all := front + [b];
    forall e: nat ensures e in Dividend(all) <==> e in Times(Plus(Dividend(front), ByteTop(b)), 8) {
      if e >= 32 {
        MessageGrows(front, b, e - 32);
      }
    }
  }

  function Mix(crc: bv32, b: Byte): bv32 {
    crc ^ (Pattern(b) as bv32)
  }

  lemma MixIsXor(crc: bv32, b: Byte)
    ensures IsXor(crc, Pattern(b) as bv32, Mix(crc, b)) && Step(crc, Pattern(b)) == Bits(Mix(crc, b), 8)
  {}

  lemma {:induction false} RemainderIsCongruent(bytes: seq<Byte>)
    ensures Congruent(Dividend(bytes), Poly(Remainder(0xffff_ffff, bytes)))
  {
    hide Poly, Dividend, Message, Pattern, ByteTop, Congruent, Bits, IsXor, Mix, Step;
    if bytes == [] {
      EmptyIsCongruent();
    } else {
      var front, b := bytes[..|bytes| - 1], bytes[|bytes| - 1];
      var r := Remainder(0xffff_ffff, front);
      var mixed := Mix(r, b);
      MixIsXor(r, b);
      RemainderIsCongruent(front);
      CongruentPlus(Dividend(front), Poly(r), ByteTop(b));
      PolyXor(r, Pattern(b) as bv32, mixed);
      PatternIsByteTop(b);
      CongruentTimes(Plus(Dividend(front), ByteTop(b)), Poly(mixed), 8);
      DividendGrows(front, b);
      assert bytes == front + [b];
      BitsAreTimes(mixed, 8);
      CongruentThrough(Dividend(bytes), Times(Poly(mixed), 8), Poly(Bits(mixed, 8)));
    }
  }

  lemma EmptyIsCongruent()
    ensures Congruent(Dividend([]), Poly(0xffff_ffff))
  {
    AllOnes();
    assert Plus(Dividend([]), Multiple([])) == Poly(0xffff_ffff);
  }
}
