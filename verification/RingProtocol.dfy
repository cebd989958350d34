/**
  One producer and one consumer on the same ring, interleaved at any point of their copies.  Each reads
  the other's index once, works on its part of the circle, and publishes its own index at the end.
*/
module RingProtocol {
  import opened Bytes
  import opened RingBytes
  import opened Ring

  type Frame = seq<Byte>

  /** The producer keeps the read index it saw, which may be out of date by now. */
  datatype Producer = Resting | Filling(seen: nat, frame: Frame, done: nat)

  /** The consumer keeps the write index it saw; `visible` frames were in the ring at that time. */
  datatype Consumer = Waiting | Draining(seen: nat, visible: nat, out: seq<Byte>)

  datatype State = State(data: seq<Byte>, w: nat, r: nat, producer: Producer, consumer: Consumer,
                         sent: seq<Frame>, received: seq<Frame>)
  {
    function Size(): nat {
      |data|
    }

    ghost function Queue(): seq<Frame>
      requires |received| <= |sent|
    {
      sent[|received|..]
    }
  }

  /** The length that a frame states in its own descriptor. */
  function FrameLength(out: seq<Byte>): nat
    requires |out| >= DESCRIPTOR_SIZE
  {
    ReadLe16(out[4..6]) as int * ALIGNMENT + TRAILER_SIZE
  }

  predicate WellSized(frame: Frame) {
    |frame| >= DESCRIPTOR_SIZE + TRAILER_SIZE && |frame| == FrameLength(frame)
  }

  /** The frames that the driver's writes build state their own length. */
  lemma PacketsAreWellSized(frame: Frame, p: Packet)
    requires Frames(frame, p)
    ensures WellSized(frame)
  {
    assert frame[..16][4..6] == frame[4..6];
  }

  ghost predicate Init(s: State) {
    && s.data != [] && s.w == s.r == 0 && s.producer == Resting && s.consumer == Waiting
    && s.sent == [] && s.received == []
  }

  // ----- the steps ------------------------------------------------------------------------------

  ghost predicate BeginWrite(s: State, t: State, frame: Frame) {
    && s.producer == Resting && WellSized(frame) && |frame| <= s.Size() - Used(s.w, s.r, s.Size()) - 1
    && t == s.(producer := Filling(s.r, frame, 0))
  }

  /** Any number of bytes of the frame at once, or none. */
  ghost predicate CopyIn(s: State, t: State, k: nat) {
    && s.producer.Filling? && s.producer.done + k <= |s.producer.frame| <= s.Size()
    && Laid(s.data, t.data, Wrap(s.w + s.producer.done, s.Size()),
            s.producer.frame[s.producer.done..s.producer.done + k])
    && t == s.(data := t.data, producer := s.producer.(done := s.producer.done + k))
  }

  ghost predicate PublishWrite(s: State, t: State) {
    && s.producer.Filling? && s.producer.done == |s.producer.frame|
    && t == s.(w := Wrap(s.w + |s.producer.frame|, s.Size()), producer := Resting, sent := s.sent + [s.producer.frame])
  }

  ghost predicate BeginRead(s: State, t: State) {
    && s.consumer == Waiting && Used(s.w, s.r, s.Size()) > 0 && |s.received| <= |s.sent|
    && t == s.(consumer := Draining(s.w, |s.Queue()|, []))
  }

  /** The descriptor first; from then on no more than the length it states. */
  ghost predicate CopyOut(s: State, t: State, k: nat) {
    && s.consumer.Draining?
    && |s.consumer.out| + k <= (if |s.consumer.out| < DESCRIPTOR_SIZE then DESCRIPTOR_SIZE
                                else FrameLength(s.consumer.out))
    && |s.consumer.out| + k <= s.Size() && Wrap(s.r + |s.consumer.out|, s.Size()) < s.Size()
    && t == s.(consumer := s.consumer.(out := s.consumer.out + Slice(s.data, Wrap(s.r + |s.consumer.out|, s.Size()),
                                                                     k)))
  }

  ghost predicate PublishRead(s: State, t: State) {
    && s.consumer.Draining? && |s.consumer.out| >= DESCRIPTOR_SIZE && |s.consumer.out| == FrameLength(s.consumer.out)
    && t == s.(r := Wrap(s.r + |s.consumer.out|, s.Size()), consumer := Waiting,
               received := s.received + [s.consumer.out])
  }

  ghost predicate Next(s: State, t: State) {
    || (exists frame :: BeginWrite(s, t, frame))
    || (exists k :: CopyIn(s, t, k))
    || PublishWrite(s, t)
    || BeginRead(s, t)
    || (exists k :: CopyOut(s, t, k))
    || PublishRead(s, t)
  }

  // ----- what every step keeps --------------------------------------------------------------------

  /** What is between read and write index is exactly what was sent and not yet received. */
  ghost predicate Stored(s: State) {
    && s.w < s.Size() && s.r < s.Size()
    && |s.received| <= |s.sent| && s.received == s.sent[..|s.received|]
    && (forall i :: 0 <= i < |s.sent| ==> WellSized(s.sent[i]))
    && Used(s.w, s.r, s.Size()) == |Flat(s.Queue())| && Slice(s.data, s.r, |Flat(s.Queue())|) == Flat(s.Queue())
  }

  /** The producer has room beside everything unread, and has laid down a part of its frame. */
  ghost predicate ProducerSound(s: State)
    requires s.w < s.Size() && s.r < s.Size()
  {
    s.producer.Filling? ==>
      var p := s.producer;
      && WellSized(p.frame) && p.done <= |p.frame| && p.seen < s.Size()
      && Used(s.w, s.r, s.Size()) <= Used(s.w, p.seen, s.Size())
      && Used(s.w, p.seen, s.Size()) + |p.frame| < s.Size()
      && Slice(s.data, s.w, p.done) == p.frame[..p.done]
  }

  /** The consumer holds a part of the oldest frame, and the frame was whole when it looked. */
  ghost predicate ConsumerSound(s: State)
    requires |s.received| <= |s.sent|
  {
    s.consumer.Draining? ==>
      var c := s.consumer;
      && 1 <= c.visible <= |s.Queue()| && Used(c.seen, s.r, s.Size()) == |Flat(s.Queue()[..c.visible])|
      && c.out <= s.Queue()[0]
  }

  ghost predicate Inv(s: State) {
    Stored(s) && ProducerSound(s) && ConsumerSound(s)
  }

  lemma InitHolds(s: State)
    requires Init(s)
    ensures Inv(s)
  {
    assert s.Queue() == [] && Slice(s.data, 0, 0) == [];
  }

  lemma BeginWriteKeeps(s: State, t: State, frame: Frame)
    requires Inv(s) && BeginWrite(s, t, frame)
    ensures Inv(t)
  {
    assert Slice(t.data, t.w, 0) == frame[..0];
    assert t.Queue() == s.Queue();
  }

  lemma CopyInKeeps(s: State, t: State, k: nat)
    requires Inv(s) && CopyIn(s, t, k)
    ensures Inv(t) && Slice(t.data, t.r, Used(t.w, t.r, t.Size())) == Slice(s.data, s.r, Used(s.w, s.r, s.Size()))
  {
    hide Flat, FrameLength;
    var p, size := s.producer, s.Size();
    var used := Used(s.w, s.r, size);
    assert t.Queue() == s.Queue();
    Chained(s.data, t.data, s.w, p.frame, p.done, k);
    StaysClear(s.data, t.data, s.r, used, p.done, p.frame[p.done..p.done + k]);
  }

  /** A further piece behind the part already laid extends that part. */
  lemma Chained(before: seq<Byte>, after: seq<Byte>, w: nat, frame: Frame, done: nat, k: nat)
    requires w < |before| && done + k <= |frame| <= |before| && Slice(before, w, done) == frame[..done]
    requires Laid(before, after, Wrap(w + done, |before|), frame[done..done + k])
    ensures Slice(after, w, done + k) == frame[..done + k]
  {
    SliceSplits(after, w, done, k);
    forall i | 0 <= i < done ensures Slice(after, w, done)[i] == frame[i] {
      assert after[Wrap(w + i, |before|)] == before[Wrap(w + i, |before|)] == Slice(before, w, done)[i];
    }
    assert Slice(after, w, done) == frame[..done];
    assert frame[..done] + frame[done..done + k] == frame[..done + k];
  }

  /** What is laid behind the used part, and a little further on, does not reach round to it. */
  lemma StaysClear(before: seq<Byte>, after: seq<Byte>, r: nat, used: nat, done: nat, piece: seq<Byte>)
    requires r < |before| && used + done + |piece| < |before|
    requires Laid(before, after, Wrap(Wrap(r + used, |before|) + done, |before|), piece)
    ensures Slice(after, r, used) == Slice(before, r, used)
  {
    forall i | 0 <= i < used ensures Slice(after, r, used)[i] == Slice(before, r, used)[i] {
      assert after[Wrap(r + i, |before|)] == before[Wrap(r + i, |before|)];
    }
  }

  lemma PublishWriteKeeps(s: State, t: State)
    requires Inv(s) && PublishWrite(s, t)
    ensures Inv(t)
  {
    var frame := s.producer.frame;
    assert t.Queue() == s.Queue() + [frame];
    FlatAppend(s.Queue(), frame);
    SliceSplits(s.data, s.r, |Flat(s.Queue())|, |frame|);
    assert frame[..|frame|] == frame;
    if s.consumer.Draining? {
      assert t.Queue()[..s.consumer.visible] == s.Queue()[..s.consumer.visible];
    }
  }

  lemma BeginReadKeeps(s: State, t: State)
    requires Inv(s) && BeginRead(s, t)
    ensures Inv(t)
  {
    assert t.Queue() == s.Queue() && s.Queue()[..|s.Queue()|] == s.Queue();
    assert s.Queue() != [];
  }

  /** Any part of a frame that holds the descriptor states the length of the whole. */
  lemma SameLength(out: seq<Byte>, frame: Frame)
    requires DESCRIPTOR_SIZE <= |out| && out <= frame
    ensures FrameLength(out) == FrameLength(frame)
  {
    assert out[4..6] == frame[4..6];
  }

  lemma CopyOutKeeps(s: State, t: State, k: nat)
    requires Inv(s) && CopyOut(s, t, k)
    ensures Inv(t)
  {
    hide Flat, Slice, Wrap, Used;
    var out, head := s.consumer.out, s.Queue()[0];
    assert t.Queue() == s.Queue() && head == s.sent[|s.received|] && WellSized(head);
    HeadStored(s);
    if |out| >= DESCRIPTOR_SIZE {
      SameLength(out, head);
    }
    InnerSlice(s.data, s.r, head, |out|, |out| + k);
    assert head[..|out|] + head[|out|..|out| + k] == head[..|out| + k];
  }

  /** The oldest unread frame lies, whole, at the read index. */
  lemma HeadStored(s: State)
    requires Stored(s) && s.Queue() != []
    ensures |s.Queue()[0]| <= |Flat(s.Queue())| < s.Size() && Slice(s.data, s.r, |s.Queue()[0]|) == s.Queue()[0]
  {
    var q := s.Queue();
    InnerSlice(s.data, s.r, Flat(q), 0, |q[0]|);
    assert Flat(q)[0..|q[0]|] == q[0];
  }

  /** The write index that the consumer saw, however old, covers the frame that it is reading. */
  lemma SeenIsEnough(s: State)
    requires Inv(s) && s.consumer.Draining? && |s.consumer.out| >= DESCRIPTOR_SIZE
    ensures FrameLength(s.consumer.out) <= Used(s.consumer.seen, s.r, s.Size())
  {
    var out, q := s.consumer.out, s.Queue();
    assert q[0] == s.sent[|s.received|] && WellSized(q[0]);
    SameLength(out, q[0]);
    assert q[..s.consumer.visible][0] == q[0];
  }

  /** Behind the oldest unread frame lie the others. */
  lemma RestStored(s: State)
    requires Stored(s) && s.Queue() != []
    ensures var q, next := s.Queue(), Wrap(s.r + |s.Queue()[0]|, s.Size());
      && next < s.Size() && Used(s.w, next, s.Size()) == |Flat(q[1..])| <= Used(s.w, s.r, s.Size())
      && Slice(s.data, next, |Flat(q[1..])|) == Flat(q[1..])
  {
    hide WellSized;
    var q := s.Queue();
    HeadStored(s);
    UsedLess(s.data, s.w, s.r, |q[0]|);
    hide Wrap, Used, Slice;
    InnerSlice(s.data, s.r, Flat(q), |q[0]|, |Flat(q)|);
    assert Flat(q)[|q[0]|..|Flat(q)|] == Flat(q[1..]);
  }

  lemma PublishReadKeeps(s: State, t: State)
    requires Inv(s) && PublishRead(s, t)
    ensures Inv(t) && s.consumer.out == s.Queue()[0]
  {
    hide Slice, FrameLength, Flat;
    var out, q := s.consumer.out, s.Queue();
    assert q[0] == s.sent[|s.received|] && WellSized(q[0]);
    SameLength(out, q[0]);
    assert out == q[0] && t.Queue() == q[1..];
    RestStored(s);
    assert s.sent[..|s.received| + 1] == s.received + [out];
  }

  lemma NextKeeps(s: State, t: State)
    requires Inv(s) && Next(s, t)
    ensures Inv(t)
  {
    hide Inv, BeginWrite, CopyIn, PublishWrite, BeginRead, CopyOut, PublishRead;
    if frame :| BeginWrite(s, t, frame) {
      BeginWriteKeeps(s, t, frame);
    } else if k: nat :| CopyIn(s, t, k) {
      CopyInKeeps(s, t, k);
    } else if PublishWrite(s, t) {
      PublishWriteKeeps(s, t);
    } else if BeginRead(s, t) {
      BeginReadKeeps(s, t);
    } else if k: nat :| CopyOut(s, t, k) {
      CopyOutKeeps(s, t, k);
    } else {
      PublishReadKeeps(s, t);
    }
  }

  // ----- whole calls are steps with nothing in between ------------------------------------------------

  /** What a write to the ring promises when it succeeds. */
  ghost predicate WriteCall(s: State, t: State, frame: Frame) {
    && s.producer == Resting && WellSized(frame) && Sends(s.data, t.data, s.w, s.r, t.w, frame)
    && t == s.(data := t.data, w := t.w, sent := s.sent + [frame])
  }

  /** What a read from the ring promises when it succeeds. */
  ghost predicate ReadCall(s: State, t: State) {
    && s.consumer == Waiting && |s.received| < |s.sent|
    && t == s.(r := Wrap(s.r + |s.Queue()[0]|, s.Size()), received := s.received + [s.Queue()[0]])
  }

  /** The producer's three steps in a row are a write call, and every write call is such a row. */
  lemma WriteIsSteps(s: State, t: State, frame: Frame)
    requires Inv(s)
    ensures WriteCall(s, t, frame) <==>
            exists begun, laid :: BeginWrite(s, begun, frame) && CopyIn(begun, laid, |frame|) && PublishWrite(laid, t)
  {
    hide Flat, WellSized, Laid, ProducerSound, ConsumerSound;
    assert frame[0..0 + |frame|] == frame && Wrap(s.w + 0, s.Size()) == s.w;
    if WriteCall(s, t, frame) {
      var begun := s.(producer := Filling(s.r, frame, 0));
      var laid := begun.(data := t.data, producer := Filling(s.r, frame, |frame|));
      LaidFits(s.data, t.data, s.w, frame);
      assert BeginWrite(s, begun, frame) && CopyIn(begun, laid, |frame|) && PublishWrite(laid, t);
    }
    forall begun, laid | BeginWrite(s, begun, frame) && CopyIn(begun, laid, |frame|) && PublishWrite(laid, t)
      ensures WriteCall(s, t, frame)
    {
      LaidFits(s.data, laid.data, s.w, frame);
    }
  }

  lemma LaidFits(before: seq<Byte>, after: seq<Byte>, at: nat, bytes: seq<Byte>)
    requires Laid(before, after, at, bytes)
    ensures |bytes| <= |before| == |after|
  {}

  /** The consumer's steps in a row, the descriptor before the rest, are a read call, and the other way round. */
  lemma ReadIsSteps(s: State, t: State)
    requires Inv(s)
    ensures ReadCall(s, t) <==>
            exists begun, half, out, k :: BeginRead(s, begun) && CopyOut(begun, half, DESCRIPTOR_SIZE)
                                          && CopyOut(half, out, k) && PublishRead(out, t)
  {
    if ReadCall(s, t) {
      var begun, half, out, k := CallIsRead(s, t);
    }
    forall begun, half, out, k: nat | BeginRead(s, begun) && CopyOut(begun, half, DESCRIPTOR_SIZE)
                                 && CopyOut(half, out, k) && PublishRead(out, t)
      ensures ReadCall(s, t)
    {
      ReadIsCall(s, begun, half, out, t, k);
    }
  }

  lemma ReadIsCall(s: State, begun: State, half: State, out: State, t: State, k: nat)
    requires Inv(s) && BeginRead(s, begun) && CopyOut(begun, half, DESCRIPTOR_SIZE)
    requires CopyOut(half, out, k) && PublishRead(out, t)
    ensures ReadCall(s, t)
  {
    BeginReadKeeps(s, begun);
    CopyOutKeeps(begun, half, DESCRIPTOR_SIZE);
    CopyOutKeeps(half, out, k);
    PublishReadKeeps(out, t);
    hide Inv, Slice, FrameLength, Used, Wrap;
    assert out.Queue() == s.Queue();
  }

  /** The oldest unread frame, cut behind its descriptor, at the places where it is copied from. */
  lemma HeadInTwo(s: State)
    requires Stored(s) && s.Queue() != []
    ensures var head := s.Queue()[0];
      && WellSized(head) && |head| < s.Size() && Used(s.w, s.r, s.Size()) > 0
      && Wrap(s.r + 0, s.Size()) == s.r < s.Size()
      && Wrap(s.r + DESCRIPTOR_SIZE, s.Size()) < s.Size()
      && Slice(s.data, s.r, DESCRIPTOR_SIZE) == head[..DESCRIPTOR_SIZE]
      && Slice(s.data, Wrap(s.r + DESCRIPTOR_SIZE, s.Size()), |head| - DESCRIPTOR_SIZE) == head[DESCRIPTOR_SIZE..]
  {
    hide Slice, FrameLength, Flat;
    var head := s.Queue()[0];
    assert head == s.sent[|s.received|];
    HeadStored(s);
    InnerSlice(s.data, s.r, head, 0, DESCRIPTOR_SIZE);
    InnerSlice(s.data, s.r, head, DESCRIPTOR_SIZE, |head|);
    assert head[..DESCRIPTOR_SIZE] == head[0..DESCRIPTOR_SIZE]
           && head[DESCRIPTOR_SIZE..] == head[DESCRIPTOR_SIZE..|head|];
  }

  lemma CallIsRead(s: State, t: State) returns (begun: State, half: State, out: State, k: nat)
    requires Stored(s) && ReadCall(s, t)
    ensures BeginRead(s, begun) && CopyOut(begun, half, DESCRIPTOR_SIZE) && CopyOut(half, out, k) && PublishRead(out, t)
  {
    HeadInTwo(s);
    var head := s.Queue()[0];
    begun := Drained(s, []);
    half := Drained(s, head[..DESCRIPTOR_SIZE]);
    out := Drained(s, head);
    k := |head| - DESCRIPTOR_SIZE;
    DescriptorCopied(s, head);
    RestCopied(s, head);
    hide Stored, Flat, Slice, Wrap, Used, CopyOut;
  }

  /** A reader that has got this much of the oldest frame. */
  ghost function Drained(s: State, part: seq<Byte>): State
    requires |s.received| <= |s.sent|
  {
    s.(consumer := Draining(s.w, |s.Queue()|, part))
  }

  lemma DescriptorCopied(s: State, head: Frame)
    requires Stored(s) && s.Queue() != [] && head == s.Queue()[0] && |head| >= DESCRIPTOR_SIZE
    ensures CopyOut(Drained(s, []), Drained(s, head[..DESCRIPTOR_SIZE]), DESCRIPTOR_SIZE)
  {
    HeadInTwo(s);
    hide Stored, Flat, Slice, Wrap, Used, FrameLength;
    assert [] + head[..DESCRIPTOR_SIZE] == head[..DESCRIPTOR_SIZE];
  }

  lemma RestCopied(s: State, head: Frame)
    requires Stored(s) && s.Queue() != [] && head == s.Queue()[0] && |head| >= DESCRIPTOR_SIZE
    ensures CopyOut(Drained(s, head[..DESCRIPTOR_SIZE]), Drained(s, head), |head| - DESCRIPTOR_SIZE)
    ensures |head| == FrameLength(head)
  {
    HeadInTwo(s);
    hide Stored, Flat, Slice, Wrap, Used, FrameLength;
    assert head[..DESCRIPTOR_SIZE] + head[DESCRIPTOR_SIZE..] == head;
    SameLength(head[..DESCRIPTOR_SIZE], head);
  }

  ghost predicate Run(states: seq<State>) {
    && states != [] && Init(states[0])
    && forall i, j :: 0 <= i && j == i + 1 && j < |states| ==> Next(states[i], states[j])
  }

  /**
    In every interleaving: what has been received is, frame by frame, what was sent first; everything
    else sent is still in the ring; and the ring never fills up completely.
  */
  lemma {:induction false} RunDelivers(states: seq<State>, n: nat)
    requires Run(states) && n < |states|
    ensures Inv(states[n]) && states[n].received <= states[n].sent
    ensures Used(states[n].w, states[n].r, states[n].Size()) < states[n].Size()
  {
    if n == 0 {
      InitHolds(states[0]);
    } else {
      RunDelivers(states, n - 1);
      NextKeeps(states[n - 1], states[n]);
    }
  }

  /** The same for packets: kind, transaction and padded payload arrive as they were sent. */
  lemma PacketsArrive(states: seq<State>, n: nat, packets: seq<Packet>)
    requires Run(states) && n < |states| && |packets| == |states[n].sent|
    requires forall i :: 0 <= i < |packets| ==> Frames(states[n].sent[i], packets[i])
    ensures |states[n].received| <= |packets|
    ensures forall i :: 0 <= i < |states[n].received| ==> Frames(states[n].received[i], packets[i])
  {
    RunDelivers(states, n);
  }
}
