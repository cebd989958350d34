/** Bytes in a circle, and the packet frames that travel through it. */
module RingBytes {
  import opened Bytes
  import opened Status

  // ----- positions ------------------------------------------------------------------------------

  /** Positions up to one round ahead, brought back into the ring. */
  function Wrap(i: nat, size: nat): nat {
    if i >= size then i - size else i
  }

  /** The index arithmetic of the driver, which adds in 32 bits. */
  function Advance(index: u32, amount: u32, size: u32): nat
    requires size > 0
  {
    var sum: int := index as int + amount as int;
    (sum % 0x1_0000_0000) % size
  }

  // the longest frame: the 16-bit length counts 8-byte units, and the trailer comes on top
  const LONGEST_MOVE := 0xffff * ALIGNMENT + TRAILER_SIZE
  const LARGEST_RING := 0x1_0000_0000 - LONGEST_MOVE

  lemma AdvanceIsWrap(index: u32, amount: u32, size: u32)
    requires index < size && amount <= size && amount <= LONGEST_MOVE && size <= LARGEST_RING
    ensures Advance(index, amount, size) == Wrap(index + amount, size) < size
  {
    var sum: int := index as int + amount as int;
    if sum >= size {
      assert sum == size * 1 + (sum - size);
    }
    ModIsWrap(sum, size);
  }

  lemma ModIsWrap(i: nat, size: nat)
    requires 0 < size && i < 2 * size
    ensures i % size == Wrap(i, size)
  {
    if i >= size {
      assert (i - size) % size == i - size;
      assert i == size + (i - size);
      ModPlus(i - size, size);
    }
  }

  lemma ModPlus(i: nat, size: nat)
    requires 0 < size && i < size
    ensures (i + size) % size == i
  {
    var q, r := (i + size) / size, (i + size) % size;
    assert i + size == size * q + r;
    Multiples(size, q);
  }

  lemma Multiples(size: nat, q: int)
    ensures q <= 0 ==> size * q <= 0
    ensures q >= 2 ==> size * q >= size * 2
  {
    if q >= 2 {
      assert size * q == size * 2 + size * (q - 2);
    }
  }

  /** In a larger ring the move past the longest frame can wrap around before it is reduced. */
  lemma AdvanceFails(size: u32) returns (index: u32)
    requires size > LARGEST_RING
    ensures index < size && index % ALIGNMENT == 0
    ensures Advance(index, LONGEST_MOVE, size) == 0 && Wrap(index + LONGEST_MOVE, size) != 0
  {
    index := LARGEST_RING;
    assert 0 % size == 0;
  }

  /** Every move that a frame can cause in a ring of this size ends at the right position. */
  ghost predicate AdvanceSound(size: u32)
    requires size > 0
  {
    forall index: u32, amount: u32 :: index < size && amount <= size && amount <= LONGEST_MOVE ==>
      Advance(index, amount, size) == Wrap(index + amount, size)
  }

  lemma AdvanceExact(size: u32)
    requires size > 0
    ensures AdvanceSound(size) <==> size <= LARGEST_RING
  {
    if size <= LARGEST_RING {
      forall index: u32, amount: u32 | index < size && amount <= size && amount <= LONGEST_MOVE
        ensures Advance(index, amount, size) == Wrap(index + amount, size)
      {
        AdvanceIsWrap(index, amount, size);
      }
    } else {
      var index := AdvanceFails(size);
    }
  }

  function Used(w: nat, r: nat, size: nat): (n: int)
    ensures w < size && r < size ==> 0 <= n < size
  {
    if w >= r then w - r else size - (r - w)
  }

  // ----- bytes in a circle ----------------------------------------------------------------------

  function Slice(data: seq<Byte>, at: nat, n: nat): (s: seq<Byte>)
    requires at < |data| && n <= |data|
    ensures |s| == n && forall k :: 0 <= k < n ==> s[k] == data[Wrap(at + k, |data|)]
  {
    seq(n, k requires 0 <= k < n => data[Wrap(at + k, |data|)])
  }

  /** `after` is `before` with `bytes` laid in from `at` on. */
  ghost predicate Laid(before: seq<Byte>, after: seq<Byte>, at: nat, bytes: seq<Byte>) {
    && |after| == |before| && at < |before| && |bytes| <= |before|
    && Slice(after, at, |bytes|) == bytes
    && forall p :: 0 <= p < |before| && Ahead(at, p, |before|) >= |bytes| ==> after[p] == before[p]
  }

  /** Distance from one position to another, going forward. */
  function Ahead(from: nat, to: nat, size: nat): int {
    if to >= from then to - from else to + size - from
  }

  /** Two stretches one after the other are one stretch. */
  lemma SliceSplits(data: seq<Byte>, at: nat, m: nat, n: nat)
    requires at < |data| && m + n <= |data|
    ensures Wrap(at + m, |data|) < |data|
    ensures Slice(data, at, m + n) == Slice(data, at, m) + Slice(data, Wrap(at + m, |data|), n)
  {}

  lemma LaidTwice(a: seq<Byte>, b: seq<Byte>, c: seq<Byte>, at: nat, first: seq<Byte>, second: seq<Byte>)
    requires Laid(a, b, at, first) && |first| + |second| <= |a|
    requires Laid(b, c, Wrap(at + |first|, |a|), second)
    ensures Laid(a, c, at, first + second)
  {
    var size, next := |a|, Wrap(at + |first|, |a|);
    SliceSplits(c, at, |first|, |second|);
    forall k | 0 <= k < |first| ensures Slice(c, at, |first|)[k] == first[k] {
      assert c[Wrap(at + k, size)] == b[Wrap(at + k, size)] == Slice(b, at, |first|)[k];
    }
    assert Slice(c, at, |first|) == first;
  }

  /** Bytes laid into the free part leave the used part alone. */
  lemma LaidKeeps(before: seq<Byte>, after: seq<Byte>, w: nat, bytes: seq<Byte>, r: nat, n: nat)
    requires Laid(before, after, w, bytes) && r < |before| && n + |bytes| <= |before|
    requires w == Wrap(r + n, |before|)
    ensures Slice(after, r, n) == Slice(before, r, n)
  {
    forall k | 0 <= k < n ensures Slice(after, r, n)[k] == Slice(before, r, n)[k] {
      assert after[Wrap(r + k, |before|)] == before[Wrap(r + k, |before|)];
    }
  }

  // ----- frames ---------------------------------------------------------------------------------

  const ALIGNMENT := 8
  const DESCRIPTOR_SIZE := 16
  const TRAILER_SIZE := 8

  /** What a reader gets out of a frame. */
  datatype Packet = Packet(kind: u16, transaction: u64, payload: seq<Byte>)

  function Descriptor(kind: u16, offset8: u16, length8: u16, flags: u16, transaction: u64): (d: seq<Byte>)
    ensures |d| == DESCRIPTOR_SIZE
    ensures d[0..2] == WriteLe16(kind) && d[2..4] == WriteLe16(offset8) && d[4..6] == WriteLe16(length8)
    ensures d[8..16] == WriteLe64(transaction)
  {
    WriteLe16(kind) + WriteLe16(offset8) + WriteLe16(length8) + WriteLe16(flags) + WriteLe64(transaction)
  }

  function Trailer(w: u32, r: u32): (t: seq<Byte>)
    ensures |t| == TRAILER_SIZE
  {
    WriteLe32(r) + WriteLe32(w)
  }

  function Aligned(n: nat): (a: nat)
    ensures a % ALIGNMENT == 0 && n <= a < n + ALIGNMENT
  {
    (n + ALIGNMENT - 1) / ALIGNMENT * ALIGNMENT
  }

  function Padded(bytes: seq<Byte>): (p: seq<Byte>)
    ensures |p| == Aligned(|bytes|) && bytes <= p
  {
    bytes + Zeros(Aligned(|bytes|) - |bytes|)
  }

  /** A descriptor that a reader accepts when `used` bytes are waiting. */
  predicate Acceptable(d: seq<Byte>, used: int)
    requires |d| == DESCRIPTOR_SIZE
  {
    var offset, length := ReadLe16(d[2..4]) as int * ALIGNMENT, ReadLe16(d[4..6]) as int * ALIGNMENT;
    DESCRIPTOR_SIZE <= offset <= length <= used - TRAILER_SIZE
  }

  /** The frame of one packet: descriptor, data up to the stated length, trailer. */
  ghost predicate Frames(frame: seq<Byte>, p: Packet) {
    && |frame| >= DESCRIPTOR_SIZE + TRAILER_SIZE && Acceptable(frame[..16], |frame|)
    && ReadLe16(frame[..16][4..6]) as int * ALIGNMENT == |frame| - TRAILER_SIZE
    && p.kind == ReadLe16(frame[..16][0..2]) && p.transaction == ReadLe64(frame[..16][8..16])
    && p.payload == frame[ReadLe16(frame[..16][2..4]) as int * ALIGNMENT..|frame| - TRAILER_SIZE]
  }

  /** The bytes that a plain write sends. */
  function PlainFrame(kind: u16, flags: u16, transaction: u64, payload: seq<Byte>, w: u32, r: u32): seq<Byte>
    requires DESCRIPTOR_SIZE + |payload| <= 0xffff * ALIGNMENT
  {
    Descriptor(kind, 2, (DESCRIPTOR_SIZE + |Padded(payload)|) / ALIGNMENT, flags, transaction)
    + Padded(payload) + Trailer(w, r)
  }

  lemma PlainFrameHolds(kind: u16, flags: u16, transaction: u64, payload: seq<Byte>, w: u32, r: u32)
    requires DESCRIPTOR_SIZE + |payload| <= 0xffff * ALIGNMENT
    ensures Frames(PlainFrame(kind, flags, transaction, payload, w, r), Packet(kind, transaction, Padded(payload)))
  {
    hide Descriptor, Trailer, WriteLe16, WriteLe64;
    var frame := PlainFrame(kind, flags, transaction, payload, w, r);
    var d := Descriptor(kind, 2, (DESCRIPTOR_SIZE + |Padded(payload)|) / ALIGNMENT, flags, transaction);
    assert frame[..16] == d;
    assert frame[16..|frame| - TRAILER_SIZE] == Padded(payload);
  }

  /** The driver sends frames that long, and in a larger ring its reader moves to the wrong place behind one. */
  lemma LongestFrameMisleads(size: u32, kind: u16, flags: u16, transaction: u64, payload: seq<Byte>, w: u32, r: u32)
    returns (index: u32)
    requires size > LARGEST_RING && DESCRIPTOR_SIZE + |payload| == 0xffff * ALIGNMENT
    ensures |PlainFrame(kind, flags, transaction, payload, w, r)| == LONGEST_MOVE < size && index < size
    ensures index % ALIGNMENT == 0 && Advance(index, LONGEST_MOVE, size) != Wrap(index + LONGEST_MOVE, size)
  {
    hide Descriptor, Trailer, Advance, Wrap;
    index := AdvanceFails(size);
  }

  // ----- frames that describe memory ------------------------------------------------------------

  const PAGE_SIZE := 4096

  /** The page numbers from `first` on, 64 bits each. */
  function PageNumbers(first: nat, count: nat): (b: seq<Byte>)
    requires first + count <= 0x1_0000_0000_0000_0000
    ensures |b| == 8 * count
  {
    if count == 0 then [] else PageNumbers(first, count - 1) + WriteLe64(first + count - 1)
  }

  /** Word `i` of the list is page number `first + i`. */
  lemma {:induction false} PageNumberAt(first: nat, count: nat, i: nat)
    requires first + count <= 0x1_0000_0000_0000_0000 && i < count
    ensures ReadLe64(PageNumbers(first, count)[8 * i..8 * i + 8]) == first + i
  {
    hide WriteLe64, ReadLe64;
    var front, last := PageNumbers(first, count - 1), WriteLe64(first + count - 1);
    assert PageNumbers(first, count) == front + last;
    if i == count - 1 {
      assert (front + last)[8 * i..8 * i + 8] == last;
    } else {
      PageNumberAt(first, count - 1, i);
      SliceOfFront(front, last, 8 * i, 8 * i + 8);
    }
  }

  lemma SliceOfFront(front: seq<Byte>, back: seq<Byte>, lo: nat, hi: nat)
    requires lo <= hi <= |front|
    ensures (front + back)[lo..hi] == front[lo..hi]
  {}

  function PageCount(physical: nat, size: nat): nat {
    (physical % PAGE_SIZE + size + PAGE_SIZE - 1) / PAGE_SIZE
  }

  /** The pages named are exactly the ones that the memory touches. */
  lemma PagesCover(physical: nat, size: nat, page: nat)
    requires size > 0
    ensures physical / PAGE_SIZE <= page < physical / PAGE_SIZE + PageCount(physical, size) <==>
            page * PAGE_SIZE < physical + size && physical < (page + 1) * PAGE_SIZE
  {}

  function GpaDataOffset(count: nat): nat {
    DESCRIPTOR_SIZE + 16 + 8 * count
  }

  lemma PagesInRange(physical: u64, size: nat)
    requires 0 < size && physical <= 0xffff_ffff_ffff_ffff - size
    ensures 0 < PageCount(physical, size) && physical / PAGE_SIZE + PageCount(physical, size) <= 0x1_0000_0000_0000_0000
  {}

  lemma BodyAligned(count: nat, n: nat)
    ensures Aligned(GpaDataOffset(count) + n) == GpaDataOffset(count) + Aligned(n)
  {}

  /** Descriptor, one range, its pages, and the inline payload, padded. */
  function GpaBody(kind: u16, flags: u16, transaction: u64, payload: seq<Byte>, physical: u64,
                   size: u32): (b: seq<Byte>)
    requires PageCount(physical, size) <= 64 && |payload| <= 240
    requires physical / PAGE_SIZE + PageCount(physical, size) <= 0x1_0000_0000_0000_0000
    ensures |b| == GpaDataOffset(PageCount(physical, size)) + Aligned(|payload|)
  {
    var count := PageCount(physical, size);
    Descriptor(kind, GpaDataOffset(count) / ALIGNMENT, (GpaDataOffset(count) + Aligned(|payload|)) / ALIGNMENT, flags,
               transaction)
    + RangeHeader(size, physical % PAGE_SIZE)
    + PageNumbers(physical / PAGE_SIZE, count) + Padded(payload)
  }

  lemma GpaFrameHolds(kind: u16, flags: u16, transaction: u64, payload: seq<Byte>, physical: u64, size: u32, w: u32,
                      r: u32)
    requires PageCount(physical, size) <= 64 && |payload| <= 240
    requires physical / PAGE_SIZE + PageCount(physical, size) <= 0x1_0000_0000_0000_0000
    ensures Frames(GpaBody(kind, flags, transaction, payload, physical, size) + Trailer(w, r),
                   Packet(kind, transaction, Padded(payload)))
  {
    hide Descriptor, Trailer, WriteLe16, WriteLe32, WriteLe64, PageNumbers, Padded;
    var frame := GpaBody(kind, flags, transaction, payload, physical, size) + Trailer(w, r);
    var offset := GpaDataOffset(PageCount(physical, size));
    var d := Descriptor(kind, offset / ALIGNMENT, (offset + Aligned(|payload|)) / ALIGNMENT, flags, transaction);
    assert frame[..16] == d;
    assert frame[offset..|frame| - TRAILER_SIZE] == Padded(payload);
  }

  // ----- where each field lies ----------------------------------------------------------------------

  lemma DescriptorFields(kind: u16, offset8: u16, length8: u16, flags: u16, transaction: u64)
    ensures var d := Descriptor(kind, offset8, length8, flags, transaction);
      && ReadLe16(d[0..2]) == kind && ReadLe16(d[2..4]) == offset8 && ReadLe16(d[4..6]) == length8
      && ReadLe16(d[6..8]) == flags && ReadLe64(d[8..16]) == transaction
  {
    hide WriteLe16, WriteLe64, ReadLe16, ReadLe64;
    var d := Descriptor(kind, offset8, length8, flags, transaction);
    assert d[6..8] == WriteLe16(flags);
  }

  /** The trailer is one 64-bit word: the write index in its upper half, the read index in its lower. */
  lemma TrailerWord(w: u32, r: u32)
    ensures ReadLe64(Trailer(w, r)) == w * 0x1_0000_0000 + r
  {
    hide WriteLe32, ReadLe32;
    var t := Trailer(w, r);
    assert t[..4] == WriteLe32(r) && t[4..] == WriteLe32(w);
  }

  lemma ThreeParts(a: seq<Byte>, b: seq<Byte>, c: seq<Byte>)
    ensures var all := a + b + c;
      && all[..|a|] == a && all[|a|..|a| + |b|] == b && all[|a| + |b|..] == c
      && (forall i, j :: 0 <= i <= j <= |a| ==> all[i..j] == a[i..j])
      && forall i, j :: 0 <= i <= j <= |b| ==> all[|a| + i..|a| + j] == b[i..j]
  {}

  /**
    A plain packet on the wire: type, data offset 16 and length in units of 8, flags, transaction, the payload,
    zeros up to the next multiple of 8, and the indexes before the write.
  */
  lemma PlainFields(kind: u16, flags: u16, transaction: u64, payload: seq<Byte>, w: u32, r: u32)
    requires DESCRIPTOR_SIZE + |payload| <= 0xffff * ALIGNMENT
    ensures var f := PlainFrame(kind, flags, transaction, payload, w, r);
      && |f| % 8 == 0 && 24 + |payload| <= |f| < 32 + |payload|
      && ReadLe16(f[0..2]) == kind && ReadLe16(f[2..4]) == 2 && 8 * (ReadLe16(f[4..6]) as int) == |f| - 8
      && ReadLe16(f[6..8]) == flags && ReadLe64(f[8..16]) == transaction
      && f[16..16 + |payload|] == payload && (forall i :: 16 + |payload| <= i < |f| - 8 ==> f[i] == 0)
      && ReadLe64(f[|f| - 8..]) == w * 0x1_0000_0000 + r
  {
    hide Descriptor, Trailer, ReadLe16, ReadLe64;
    var padded := Padded(payload);
    var length8 := (DESCRIPTOR_SIZE + |padded|) / ALIGNMENT;
    var d, f := Descriptor(kind, 2, length8, flags, transaction), PlainFrame(kind, flags, transaction, payload, w, r);
    DescriptorFields(kind, 2, length8, flags, transaction);
    TrailerWord(w, r);
    ThreeParts(d, padded, Trailer(w, r));
    assert f[16..16 + |payload|] == padded[0..|payload|];
    forall i | 16 + |payload| <= i < |f| - 8 ensures f[i] == 0 {
      assert f[i] == padded[i - 16];
    }
  }

  /**
    A packet whose data stays in memory: the descriptor, one range with its byte count and its offset in the
    first page, the page numbers, and the padded payload.
  */
  lemma GpaFields(kind: u16, flags: u16, transaction: u64, payload: seq<Byte>, physical: u64, size: u32, i: nat)
    requires PageCount(physical, size) <= 64 && |payload| <= 240 && i < PageCount(physical, size)
    requires physical / PAGE_SIZE + PageCount(physical, size) <= 0x1_0000_0000_0000_0000
    ensures var b, count := GpaBody(kind, flags, transaction, payload, physical, size), PageCount(physical, size);
      && ReadLe16(b[0..2]) == kind && 8 * (ReadLe16(b[2..4]) as int) == 32 + 8 * count
      && 8 * (ReadLe16(b[4..6]) as int) == |b| && ReadLe16(b[6..8]) == flags && ReadLe64(b[8..16]) == transaction
      && ReadLe32(b[16..20]) == 0 && ReadLe32(b[20..24]) == 1
      && ReadLe32(b[24..28]) == size && ReadLe32(b[28..32]) == physical % 4096
      && ReadLe64(b[32 + 8 * i..40 + 8 * i]) == physical / 4096 + i
      && b[32 + 8 * count..] == Padded(payload)
  {
    hide Descriptor, PageNumbers, Padded, ReadLe16, ReadLe32, ReadLe64, WriteLe32;
    var count := PageCount(physical, size);
    var pages, padded := PageNumbers(physical / PAGE_SIZE, count), Padded(payload);
    var offset8, length8 := GpaDataOffset(count) / ALIGNMENT, (GpaDataOffset(count) + |padded|) / ALIGNMENT;
    var d, range := Descriptor(kind, offset8, length8, flags, transaction), RangeHeader(size, physical % PAGE_SIZE);
    var b := GpaBody(kind, flags, transaction, payload, physical, size);
    DescriptorFields(kind, offset8, length8, flags, transaction);
    RangeFields(size, physical % PAGE_SIZE);
    PageNumberAt(physical / PAGE_SIZE, count, i);
    assert b == (d + range) + pages + padded;
    ThreeParts(d + range, pages, padded);
    ThreeParts(d, range, []);
    assert d + range + [] == d + range;
    HeadFields(b, d, range);
    assert b[32 + 8 * i..40 + 8 * i] == pages[8 * i..8 * i + 8];
  }

  function RangeHeader(size: u32, offset: u32): (h: seq<Byte>)
    ensures |h| == 16
  {
    WriteLe32(0) + WriteLe32(1) + WriteLe32(size) + WriteLe32(offset)
  }

  lemma RangeFields(size: u32, offset: u32)
    ensures var h := RangeHeader(size, offset);
      && ReadLe32(h[0..4]) == 0 && ReadLe32(h[4..8]) == 1
      && ReadLe32(h[8..12]) == size && ReadLe32(h[12..16]) == offset
  {
    hide WriteLe32, ReadLe32;
    var h := RangeHeader(size, offset);
    assert h[0..4] == WriteLe32(0) && h[4..8] == WriteLe32(1);
    assert h[8..12] == WriteLe32(size) && h[12..16] == WriteLe32(offset);
  }

  lemma HeadFields(b: seq<Byte>, d: seq<Byte>, range: seq<Byte>)
    requires |d| == 16 && |range| == 16 && |b| >= 32 && b[..32] == d + range
    ensures b[0..2] == d[0..2] && b[2..4] == d[2..4] && b[4..6] == d[4..6] && b[6..8] == d[6..8]
    ensures b[8..16] == d[8..16] && b[16..20] == range[0..4] && b[20..24] == range[4..8]
    ensures b[24..28] == range[8..12] && b[28..32] == range[12..16]
  {
    var head := b[..32];
    assert head[..16] == d && head[16..] == range;
    assert b[0..2] == head[0..2] == d[0..2] && b[2..4] == head[2..4] == d[2..4] && b[4..6] == head[4..6] == d[4..6];
    assert b[6..8] == head[6..8] == d[6..8] && b[8..16] == head[8..16] == d[8..16];
    assert b[16..20] == head[16..20] == range[0..4] && b[20..24] == head[20..24] == range[4..8];
    assert b[24..28] == head[24..28] == range[8..12] && b[28..32] == head[28..32] == range[12..16];
  }
}
