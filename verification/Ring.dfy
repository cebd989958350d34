/**
  The packet ring between guest and host: a bounded queue of packets, kept as frames in a circle of
  bytes between a read and a write index.
*/
module Ring {
  import opened Bytes
  import opened Status
  import opened RingBytes

  const GPA_DIRECT: u16 := 9
  const MAX_GPA_PAGES := 64
  const MAX_INLINE_PAYLOAD := 240

  ghost function Flat(frames: seq<seq<Byte>>): seq<Byte> {
    if frames == [] then [] else frames[0] + Flat(frames[1..])
  }

  lemma {:induction false} FlatAppend(frames: seq<seq<Byte>>, frame: seq<Byte>)
    ensures Flat(frames + [frame]) == Flat(frames) + frame
  {
    if frames == [] {
      assert Flat([frame]) == frame + Flat([]);
    } else {
      FlatAppend(frames[1..], frame);
      assert (frames + [frame])[1..] == frames[1..] + [frame];
      assert frames[0] + (Flat(frames[1..]) + frame) == frames[0] + Flat(frames[1..]) + frame;
    }
  }

  /** The used part of the ring is exactly these frames, and they carry these packets. */
  ghost predicate Holds(data: seq<Byte>, w: nat, r: nat, frames: seq<seq<Byte>>, packets: seq<Packet>) {
    && w < |data| && r < |data| && |frames| == |packets|
    && (forall i :: 0 <= i < |frames| ==> Frames(frames[i], packets[i]))
    && Used(w, r, |data|) == |Flat(frames)| && Slice(data, r, |Flat(frames)|) == Flat(frames)
  }

  lemma HoldsMore(before: seq<Byte>, after: seq<Byte>, w: nat, r: nat, frames: seq<seq<Byte>>, packets: seq<Packet>,
                  frame: seq<Byte>, p: Packet)
    requires Holds(before, w, r, frames, packets) && Laid(before, after, w, frame) && Frames(frame, p)
    requires Used(w, r, |before|) + |frame| < |before|
    ensures Holds(after, Wrap(w + |frame|, |before|), r, frames + [frame], packets + [p])
  {
    hide Frames;
    FlatAppend(frames, frame);
    LaidKeeps(before, after, w, frame, r, |Flat(frames)|);
    SliceSplits(after, r, |Flat(frames)|, |frame|);
  }

  lemma UsedFits(w: nat, r: nat, size: nat)
    ensures w < size && r < size ==> Used(w, r, size) < size
  {}

  lemma UsedLess(data: seq<Byte>, w: nat, r: nat, n: nat)
    requires w < |data| && r < |data| && n <= Used(w, r, |data|)
    ensures Wrap(r + n, |data|) < |data| && Used(w, Wrap(r + n, |data|), |data|) == Used(w, r, |data|) - n
  {}

  lemma HoldsLess(data: seq<Byte>, w: nat, r: nat, frames: seq<seq<Byte>>, packets: seq<Packet>)
    requires Holds(data, w, r, frames, packets) && frames != []
    ensures |frames[0]| <= |Flat(frames)| && Slice(data, r, |frames[0]|) == frames[0]
    ensures Holds(data, w, Wrap(r + |frames[0]|, |data|), frames[1..], packets[1..])
  {
    hide Frames, Slice, Wrap;
    var n := |frames[0]|;
    assert Flat(frames) == frames[0] + Flat(frames[1..]);
    UsedLess(data, w, r, n);
    SliceSplits(data, r, n, |Flat(frames[1..])|);
    assert Flat(frames)[..n] == frames[0] && Flat(frames)[n..] == Flat(frames[1..]);
  }

  /** One whole write: the frame goes into the free part, one byte is left, the index moves behind it. */
  ghost predicate Sends(before: seq<Byte>, after: seq<Byte>, w: nat, r: nat, next: nat, frame: seq<Byte>) {
    && w < |before| && r < |before| && Used(w, r, |before|) + |frame| < |before|
    && Laid(before, after, w, frame) && next == Wrap(w + |frame|, |before|)
  }

  class Ring {
    const data: array<Byte>
    var writeIndex: u32
    var readIndex: u32
    var interruptMask: u32
    var pendingSendSize: u32
    // what is in the ring, oldest first
    ghost var frames: seq<seq<Byte>>
    ghost var packets: seq<Packet>

    ghost predicate Wired()
      reads this
    {
      64 <= data.Length <= LARGEST_RING
    }

    ghost predicate Valid()
      reads this, data
    {
      Wired() && Holds(data[..], writeIndex, readIndex, frames, packets)
    }

    constructor (size: nat)
      requires 64 <= size <= LARGEST_RING
      ensures Valid() && packets == [] && fresh(data) && data.Length == size
    {
      data := new Byte[size](_ => 0);
      writeIndex, readIndex, interruptMask, pendingSendSize := 0, 0, 0, 0;
      frames, packets := [], [];
    }

    /** Lays bytes into the circle, in at most two pieces. */
    method CopyIn(index: nat, bytes: seq<Byte>)
      requires Wired() && index < data.Length && |bytes| <= data.Length
      modifies data
      ensures Laid(old(data[..]), data[..], index, bytes)
    {
      var first := |bytes|;
      if first > data.Length - index {
        first := data.Length - index;
      }
      forall k | 0 <= k < first {
        data[index + k] := bytes[k];
      }
      if |bytes| > first {
        forall k | first <= k < |bytes| {
          data[k - first] := bytes[k];
        }
      }
      assert Slice(data[..], index, |bytes|) == bytes;
    }

    method CopyOut(index: nat, n: nat) returns (bytes: seq<Byte>)
      requires Wired() && index < data.Length && n <= data.Length
      ensures bytes == Slice(data[..], index, n)
    {
      var first := n;
      if first > data.Length - index {
        first := data.Length - index;
      }
      bytes := data[index..index + first];
      if n > first {
        bytes := bytes + data[..n - first];
      }
    }

    method Write(kind: u16, flags: u16, transaction: u64, payload: seq<Byte>) returns (status: Status, signal: bool)
      requires Wired()
      modifies this`writeIndex, this`pendingSendSize, this`frames, this`packets, data
      ensures status in {Ok, InvalidArgument, NoSpace, Corrupt, WouldBlock}
      ensures status == InvalidArgument <==> DESCRIPTOR_SIZE + |payload| > 0xffff * ALIGNMENT
      ensures var required := Aligned(DESCRIPTOR_SIZE + |payload|) + TRAILER_SIZE;
        && (status == NoSpace <==> DESCRIPTOR_SIZE + |payload| <= 0xffff * ALIGNMENT && required >= data.Length)
        && (old(Valid()) && required < data.Length && DESCRIPTOR_SIZE + |payload| <= 0xffff * ALIGNMENT ==>
              (status == Ok <==> Used(old(writeIndex), readIndex, data.Length) + required < data.Length))
        && (status == WouldBlock ==> pendingSendSize == required)
      ensures status != Ok ==>
              data[..] == old(data[..]) && writeIndex == old(writeIndex) && frames == old(frames)
                && packets == old(packets)
      ensures old(Valid()) ==> Valid()
      ensures status == Ok ==>
              packets == old(packets) + [Packet(kind, transaction, Padded(payload))] && (signal <==> interruptMask == 0)
      ensures status == Ok ==>
              var frame := PlainFrame(kind, flags, transaction, payload, old(writeIndex), readIndex);
              && frames == old(frames) + [frame]
              && Sends(old(data[..]), data[..], old(writeIndex), readIndex, writeIndex, frame)
    {
      hide Holds, PlainFrame, Frames, Laid;
      HoldsBounds(data[..], writeIndex, readIndex, frames, packets);
      signal := false;
      if |payload| > 0xffff * ALIGNMENT - DESCRIPTOR_SIZE {
        return InvalidArgument, false;
      }
      var packetSize := DESCRIPTOR_SIZE + |payload|;
      var alignedSize := Aligned(packetSize);
      var required := alignedSize + TRAILER_SIZE;
      if required >= data.Length {
        return NoSpace, false;
      }
      var w, r := writeIndex, readIndex;
      if w >= data.Length || r >= data.Length {
        return Corrupt, false;
      }
      if required > data.Length - Used(w, r, data.Length) - 1 {
        pendingSendSize := required;
        return WouldBlock, false;
      }
      var next := LayPlain(kind, flags, transaction, payload, w, r);
      ghost var frame, p :=
        PlainFrame(kind, flags, transaction, payload, w, r), Packet(kind, transaction, Padded(payload));
      PlainFrameHolds(kind, flags, transaction, payload, w, r);
      if old(Valid()) {
        HoldsMore(old(data[..]), data[..], w, r, frames, packets, frame, p);
      }
      writeIndex := next;
      frames, packets := frames + [frame], packets + [p];
      return Ok, interruptMask == 0;
    }

    /** Descriptor, payload, padding and trailer, each behind the other. */
    method LayPlain(kind: u16, flags: u16, transaction: u64, payload: seq<Byte>, w: u32, r: u32) returns (next: u32)
      requires Wired() && w < data.Length && DESCRIPTOR_SIZE + |payload| <= 0xffff * ALIGNMENT
      requires Aligned(DESCRIPTOR_SIZE + |payload|) + TRAILER_SIZE < data.Length
      modifies data
      ensures Laid(old(data[..]), data[..], w, PlainFrame(kind, flags, transaction, payload, w, r))
      ensures next == Wrap(w + |PlainFrame(kind, flags, transaction, payload, w, r)|, data.Length)
      ensures |PlainFrame(kind, flags, transaction, payload, w, r)| ==
                Aligned(DESCRIPTOR_SIZE + |payload|) + TRAILER_SIZE
    {
      hide Laid, Descriptor, Trailer, PlainFrame, Zeros;
      PlainPieces(kind, flags, transaction, payload, w, r);
      var packetSize := DESCRIPTOR_SIZE + |payload|;
      var alignedSize := Aligned(packetSize);
      ghost var start, laid := data[..], [];
      next := w;
      NothingLaid(start, w);
      next, laid := Lay(start, w, laid, next, Descriptor(kind, 2, alignedSize / ALIGNMENT, flags, transaction));
      if |payload| != 0 {
        next, laid := Lay(start, w, laid, next, payload);
      }
      assert laid == Descriptor(kind, 2, alignedSize / ALIGNMENT, flags, transaction) + payload;
      if alignedSize > packetSize {
        next, laid := Lay(start, w, laid, next, Zeros(alignedSize - packetSize));
      }
      assert laid == Descriptor(kind, 2, alignedSize / ALIGNMENT, flags,
                                transaction) + payload + Zeros(alignedSize - packetSize);
      next, laid := Lay(start, w, laid, next, Trailer(w, r));
      assert laid == PlainFrame(kind, flags, transaction, payload, w, r);
    }

    /** One piece more behind what has been laid so far. */
    method Lay(ghost start: seq<Byte>, w: u32, ghost laid: seq<Byte>, at: u32, piece: seq<Byte>)
      returns (next: u32, ghost all: seq<Byte>)
      requires Wired() && |start| == data.Length && w < data.Length && |laid| + |piece| < data.Length
               && |piece| <= LONGEST_MOVE
      requires Laid(start, data[..], w, laid) && at == Wrap(w + |laid|, data.Length)
      modifies data
      ensures all == laid + piece && Laid(start, data[..], w, all) && next == Wrap(w + |all|, data.Length)
    {
      ghost var before := data[..];
      CopyIn(at, piece);
      LaidTwice(start, before, data[..], w, laid, piece);
      AdvanceIsWrap(at, |piece|, data.Length);
      next := Advance(at, |piece|, data.Length);
      all := laid + piece;
    }

    /** A packet that was put together beforehand, and its trailer. */
    method LayWhole(body: seq<Byte>, w: u32, r: u32) returns (next: u32)
      requires Wired() && w < data.Length && |body| + TRAILER_SIZE < data.Length && |body| <= LONGEST_MOVE
      modifies data
      ensures Laid(old(data[..]), data[..], w, body + Trailer(w, r))
      ensures next == Wrap(w + |body| + TRAILER_SIZE, data.Length)
    {
      hide Laid, Trailer, Wrap;
      ghost var start, laid := data[..], [];
      NothingLaid(start, w);
      next, laid := Lay(start, w, laid, w, body);
      assert laid == body;
      next, laid := Lay(start, w, laid, next, Trailer(w, r));
    }

    /** Lays the packet into the free part and moves the index behind it. */
    method SendWhole(body: seq<Byte>, ghost p: Packet)
      requires Wired() && writeIndex < data.Length && readIndex < data.Length && |body| <= LONGEST_MOVE
      requires Used(writeIndex, readIndex, data.Length) + |body| + TRAILER_SIZE < data.Length
      requires Frames(body + Trailer(writeIndex, readIndex), p)
      modifies this`writeIndex, this`frames, this`packets, data
      ensures frames == old(frames) + [body + Trailer(old(writeIndex), readIndex)] && packets == old(packets) + [p]
      ensures Sends(old(data[..]), data[..], old(writeIndex), readIndex, writeIndex, frames[|old(frames)|])
      ensures old(Valid()) ==> Valid()
    {
      hide Holds, Frames, Laid, Trailer, Wrap, Used;
      ghost var w, frame := writeIndex, body + Trailer(writeIndex, readIndex);
      var next := LayWhole(body, writeIndex, readIndex);
      if old(Valid()) {
        HoldsMore(old(data[..]), data[..], w, readIndex, frames, packets, frame, p);
      }
      writeIndex := next;
      frames, packets := frames + [frame], packets + [p];
    }

    /** Sends a packet whose data stays in memory: only the page list and a short payload travel. */
    method WriteGpaDirect(flags: u16, transaction: u64, payload: seq<Byte>, physical: u64, dataSize: nat)
      returns (status: Status, signal: bool)
      requires Wired()
      modifies this`writeIndex, this`pendingSendSize, this`frames, this`packets, data
      ensures status in {Ok, InvalidArgument, OutOfRange, NoSpace, Corrupt, WouldBlock}
      ensures status == InvalidArgument <==>
              payload == [] || |payload| > MAX_INLINE_PAYLOAD || dataSize == 0 || dataSize > 0xffff_ffff
              || physical > 0xffff_ffff_ffff_ffff - dataSize
      ensures status == OutOfRange <==> status != InvalidArgument && PageCount(physical, dataSize) > MAX_GPA_PAGES
      ensures status !in {InvalidArgument, OutOfRange} ==>
              var required := GpaDataOffset(PageCount(physical, dataSize)) + Aligned(|payload|) + TRAILER_SIZE;
              && (status == NoSpace <==> required >= data.Length)
              && (old(Valid()) && required < data.Length ==>
                    (status == Ok <==> Used(old(writeIndex), readIndex, data.Length) + required < data.Length))
              && (status == WouldBlock ==> pendingSendSize == required)
      ensures status != Ok ==>
              data[..] == old(data[..]) && writeIndex == old(writeIndex) && frames == old(frames)
                && packets == old(packets)
      ensures old(Valid()) ==> Valid()
      ensures status == Ok ==>
              && packets == old(packets) + [Packet(GPA_DIRECT, transaction, Padded(payload))]
              && PageCount(physical, dataSize) <= MAX_GPA_PAGES && |payload| <= MAX_INLINE_PAYLOAD
              && dataSize <= 0xffff_ffff
              && physical / PAGE_SIZE + PageCount(physical, dataSize) <= 0x1_0000_0000_0000_0000
              && frames == old(frames) + [GpaBody(GPA_DIRECT, flags, transaction, payload, physical, dataSize)
                                          + Trailer(old(writeIndex), readIndex)]
              && Sends(old(data[..]), data[..], old(writeIndex), readIndex, writeIndex, frames[|old(frames)|])
              && (signal <==> interruptMask == 0)
    {
      hide Holds, Frames, Laid, GpaBody, Trailer, Wrap, Padded, PageCount, Aligned, Used;
      HoldsBounds(data[..], writeIndex, readIndex, frames, packets);
      UsedFits(writeIndex, readIndex, data.Length);
      signal := false;
      if payload == [] || |payload| > MAX_INLINE_PAYLOAD || dataSize == 0 || dataSize > 0xffff_ffff
         || physical > 0xffff_ffff_ffff_ffff - dataSize {
        return InvalidArgument, false;
      }
      PagesInRange(physical, dataSize);
      var pages := PageCount(physical, dataSize);
      if pages == 0 || pages > MAX_GPA_PAGES {
        return OutOfRange, false;
      }
      BodyAligned(pages, |payload|);
      var alignedSize := Aligned(GpaDataOffset(pages) + |payload|);
      var required := alignedSize + TRAILER_SIZE;
      if required >= data.Length {
        return NoSpace, false;
      }
      var w, r := writeIndex, readIndex;
      if w >= data.Length || r >= data.Length {
        return Corrupt, false;
      }
      if required > data.Length - Used(w, r, data.Length) - 1 {
        pendingSendSize := required;
        return WouldBlock, false;
      }
      var body := GpaBody(GPA_DIRECT, flags, transaction, payload, physical, dataSize);
      GpaFrameHolds(GPA_DIRECT, flags, transaction, payload, physical, dataSize, w, r);
      SendWhole(body, Packet(GPA_DIRECT, transaction, Padded(payload)));
      return Ok, interruptMask == 0;
    }

    /** Copies the payload out and lets the frame go. */
    method Take(offset: nat, length: nat) returns (payload: seq<Byte>)
      requires Wired() && readIndex < data.Length && offset <= length <= 0xffff * ALIGNMENT
      requires length + TRAILER_SIZE <= data.Length
      modifies this`readIndex, this`frames, this`packets
      ensures payload == Slice(data[..], Wrap(old(readIndex) + offset, data.Length), length - offset)
      ensures readIndex == Wrap(old(readIndex) + length + TRAILER_SIZE, data.Length)
      ensures old(frames) != [] && old(packets) != [] ==> frames == old(frames)[1..] && packets == old(packets)[1..]
    {
      hide Slice, Wrap;
      AdvanceIsWrap(readIndex, offset, data.Length);
      payload := CopyOut(Advance(readIndex, offset, data.Length), length - offset);
      AdvanceIsWrap(readIndex, length + TRAILER_SIZE, data.Length);
      readIndex := Advance(readIndex, length + TRAILER_SIZE, data.Length);
      if frames != [] && packets != [] {
        frames, packets := frames[1..], packets[1..];
      }
    }

    /** What a read at this index comes to, whoever filled the ring. */
    ghost predicate ReadAnswer(r: u32, capacity: nat, status: Status, kind: u16, transaction: u64, payload: seq<Byte>)
      reads this, data
    {
      if writeIndex >= data.Length || r >= data.Length then status == Corrupt
      else
        var used := Used(writeIndex, r, data.Length);
        if used == 0 then status == WouldBlock
        else if used < 24 then status == Corrupt
        else
          var d := Slice(data[..], r, 16);
          var offset, length := 8 * (ReadLe16(d[2..4]) as int), 8 * (ReadLe16(d[4..6]) as int);
          if !(16 <= offset <= length <= used - 8) then status == Protocol
          else if length - offset > capacity then status == NoSpace
          else
            && status == Ok && kind == ReadLe16(d[0..2]) && transaction == ReadLe64(d[8..16])
            && payload == Slice(data[..], Wrap(r + offset, data.Length), length - offset)
            && readIndex == Wrap(r + length + 8, data.Length)
    }

    /** The oldest packet, in full, or a reason why there is none for this caller. */
    method Read(capacity: nat) returns (status: Status, kind: u16, transaction: u64, payload: seq<Byte>, size: nat)
      requires Wired()
      modifies this`readIndex, this`frames, this`packets
      ensures status in {Ok, Corrupt, WouldBlock, Protocol, NoSpace}
      ensures old(Valid()) ==> Valid()
      ensures old(Valid()) && old(packets) == [] ==> status == WouldBlock
      ensures old(Valid()) && old(packets) != [] ==>
              && size == |old(packets)[0].payload| && status == (if capacity < size then NoSpace else Ok)
      ensures old(Valid()) && status == Ok ==>
              Packet(kind, transaction, payload) == old(packets)[0] && packets == old(packets)[1..]
      ensures old(Valid()) && status == Ok ==>
              && old(frames) != [] && frames == old(frames)[1..]
              && readIndex == Wrap(old(readIndex) + |old(frames)[0]|, data.Length)
      ensures status != Ok ==> readIndex == old(readIndex) && frames == old(frames) && packets == old(packets)
      ensures ReadAnswer(old(readIndex), capacity, status, kind, transaction, payload)
    {
      hide Holds, Frames, ReadLe16, ReadLe64, Slice, Wrap, Flat;
      HoldsBounds(data[..], writeIndex, readIndex, frames, packets);
      status, kind, transaction, payload, size := Corrupt, 0, 0, [], 0;
      var r, w := readIndex, writeIndex;
      if w >= data.Length || r >= data.Length {
        return;
      }
      var used := Used(w, r, data.Length);
      if used == 0 {
        if old(Valid()) {
          EmptyRing(data[..], w, r, frames, packets);
        }
        status := WouldBlock;
        return;
      }
      if old(Valid()) {
        HeadFrame(data[..], w, r, frames, packets);
      }
      if used < DESCRIPTOR_SIZE + TRAILER_SIZE {
        return;
      }
      var descriptor := CopyOut(r, DESCRIPTOR_SIZE);
      if !Acceptable(descriptor, used) {
        status := Protocol;
        return;
      }
      var offset := ReadLe16(descriptor[2..4]) as int * ALIGNMENT;
      var length := ReadLe16(descriptor[4..6]) as int * ALIGNMENT;
      size := length - offset;
      if size > capacity {
        status := NoSpace;
        return;
      }
      payload := Take(offset, length);
      kind, transaction := ReadLe16(descriptor[0..2]), ReadLe64(descriptor[8..16]);
      status := Ok;
    }
  }

  lemma PlainPieces(kind: u16, flags: u16, transaction: u64, payload: seq<Byte>, w: u32, r: u32)
    requires DESCRIPTOR_SIZE + |payload| <= 0xffff * ALIGNMENT
    ensures var aligned := Aligned(DESCRIPTOR_SIZE + |payload|);
      && PlainFrame(kind, flags, transaction, payload, w, r) ==
         Descriptor(kind, 2, aligned / ALIGNMENT, flags, transaction) + payload
         + Zeros(aligned - DESCRIPTOR_SIZE - |payload|) + Trailer(w, r)
      && |Zeros(0)| == 0
  {
    hide Descriptor, Trailer;
    var aligned := Aligned(DESCRIPTOR_SIZE + |payload|);
    assert DESCRIPTOR_SIZE + Aligned(|payload|) == aligned;
  }

  lemma NothingLaid(data: seq<Byte>, at: nat)
    requires at < |data|
    ensures Laid(data, data, at, []) && Wrap(at, |data|) == at
  {
    assert Slice(data, at, 0) == [];
  }

  lemma HoldsBounds(data: seq<Byte>, w: nat, r: nat, frames: seq<seq<Byte>>, packets: seq<Packet>)
    ensures Holds(data, w, r, frames, packets) ==> w < |data| && r < |data| && |frames| == |packets|
  {}

  lemma EmptyRing(data: seq<Byte>, w: nat, r: nat, frames: seq<seq<Byte>>, packets: seq<Packet>)
    requires Holds(data, w, r, frames, packets) && Used(w, r, |data|) == 0
    ensures packets == []
  {}

  /** What a frame's descriptor says of it. */
  lemma FrameReads(frame: seq<Byte>, p: Packet, used: nat)
    requires Frames(frame, p) && |frame| <= used
    ensures |frame| >= DESCRIPTOR_SIZE + TRAILER_SIZE && Acceptable(frame[..16], used)
    ensures var offset := ReadLe16(frame[..16][2..4]) as int * ALIGNMENT;
      && DESCRIPTOR_SIZE <= offset <= |frame| - TRAILER_SIZE
      && ReadLe16(frame[..16][4..6]) as int * ALIGNMENT + TRAILER_SIZE == |frame|
      && p.kind == ReadLe16(frame[..16][0..2]) && p.transaction == ReadLe64(frame[..16][8..16])
      && p.payload == frame[offset..|frame| - TRAILER_SIZE]
  {
    hide ReadLe16, ReadLe64;
  }

  /** What the reader finds at the read index of a ring that is not empty. */
  lemma HeadFrame(data: seq<Byte>, w: nat, r: nat, frames: seq<seq<Byte>>, packets: seq<Packet>)
    requires Holds(data, w, r, frames, packets) && Used(w, r, |data|) != 0
    ensures packets != [] && |frames| == |packets| && |frames[0]| <= Used(w, r, |data|)
    ensures var frame := frames[0];
      && Frames(frame, packets[0]) && Slice(data, r, DESCRIPTOR_SIZE) == frame[..16]
      && Acceptable(frame[..16], Used(w, r, |data|)) && |frame| <= |data|
      && ReadLe16(frame[..16][4..6]) as int * ALIGNMENT + TRAILER_SIZE == |frame|
      && packets[0].kind == ReadLe16(frame[..16][0..2]) && packets[0].transaction == ReadLe64(frame[..16][8..16])
    ensures var frame, offset := frames[0], ReadLe16(frames[0][..16][2..4]) as int * ALIGNMENT;
      && Slice(data, Wrap(r + offset, |data|), |frame| - TRAILER_SIZE - offset) == packets[0].payload
      && Holds(data, w, Wrap(r + |frame|, |data|), frames[1..], packets[1..])
  {
    hide ReadLe16, ReadLe64, Wrap, Slice, Acceptable;
    assert frames != [];
    hide Flat;
    HoldsLess(data, w, r, frames, packets);
    FrameReads(frames[0], packets[0], Used(w, r, |data|));
    hide Frames, Holds, Used;
    var frame := frames[0];
    var offset := ReadLe16(frame[..16][2..4]) as int * ALIGNMENT;
    InnerSlice(data, r, frame, 0, 16);
    InnerSlice(data, r, frame, offset, |frame| - TRAILER_SIZE);
  }

  /** A stretch of a stretch of the ring. */
  lemma InnerSlice(data: seq<Byte>, r: nat, frame: seq<Byte>, from: nat, to: nat)
    requires r < |data| && from <= to <= |frame| <= |data| && from < |data| && Slice(data, r, |frame|) == frame
    ensures Wrap(r + from, |data|) < |data|
    ensures Slice(data, Wrap(r + from, |data|), to - from) == frame[from..to]
  {
    forall k | 0 <= k < to - from
      ensures data[Wrap(Wrap(r + from, |data|) + k, |data|)] == frame[from..to][k]
    {
      assert Wrap(Wrap(r + from, |data|) + k, |data|) == Wrap(r + (from + k), |data|);
      assert Slice(data, r, |frame|)[from + k] == frame[from + k];
    }
  }
}
