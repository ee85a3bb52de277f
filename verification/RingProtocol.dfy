/**
 One producer and one consumer over the shared ring, interleaved at the grain of single
 byte stores, index loads and index publications.

 A run is an arbitrary list of actions; an action that is not enabled leaves the state
 alone, so a theorem about every action list is a theorem about every interleaving.
 */
module RingProtocol {
  import opened Arith
  import opened Bytes
  import opened Options
  import opened RingLayout

  datatype Producer =
    | Resting
    | Looking(frame: Frame, image: seq<byte>)                         // write_to, before a load of read_idx
    | Marking(frame: Frame, image: seq<byte>, room: bool, done: nat)  // writing the skip marker; room = second check passed
    | Filling(frame: Frame, image: seq<byte>, start: nat, done: nat)  // writing length, type and body
    | Spanning(cap: nat)                                              // *_write_ptr handed out a span of cap body bytes
    | Heading(frame: Frame, image: seq<byte>, done: nat)              // *_commit writing the 8-byte header

  datatype Consumer =
    | Ready
    | Looping(skips: nat)    // read_frame_view, before a load of write_idx
    | Loaded(skips: nat)     // write_idx was seen ahead of read_idx
    | Pinned(len: nat, kind: int32, copy: Option<seq<byte>>)
    | Failed                 // the corrupt-header branch was taken

  datatype State = State(
    ds: nat, data: seq<byte>, writeIdx: nat, readIdx: nat,
    lastSeen: nat,           // newest read_idx value the producer has loaded
    known: nat,              // publications behind the newest write_idx value the consumer has loaded
    producer: Producer, consumer: Consumer,
    sent: seq<Frame>,        // frames in publication order
    received: seq<Frame>)    // frames in release order, with the bytes the consumer saw

  datatype Action =
    | BeginWrite(frame: Frame)
    | Sample(seen: nat)               // load of read_idx; may be older than the current value
    | GiveUp                          // wait budget spent
    | PutZero | PutByte | PutHeader
    | Publish
    | TakeSpan(spanSeen: nat)
    | Scribble(i: nat, b: byte)       // the serialiser stores a byte in the span
    | DropSpan
    | Commit(bodyLen: nat, kind: int32)
    | BeginRead
    | Load(n: nat)                    // load of write_idx, as stored by the n-th publication; may be an older one
    | Inspect | CopyOut | Release

  ghost predicate WellFormed(s: State) { s.ds > 0 && |s.data| == s.ds }

  function Init(data: seq<byte>): (s: State)
    requires |data| > 0
  {
    State(|data|, data, 0, 0, 0, 0, Resting, Ready, [], [])
  }

  function Store(s: State, x: nat, b: byte): State
    requires WellFormed(s)
  {
    s.(data := s.data[Off(x, s.ds) := b])
  }

  // ----- producer -----

  /** A load may return any value between the last one seen and the current one. */
  predicate Observable(s: State, seen: nat) { s.lastSeen <= seen <= s.readIdx && seen <= s.writeIdx <= seen + s.ds }

  /** What the producer does next after the space checks gave p. */
  function Placed(s: State, p: Placement): State
    requires WellFormed(s) && s.producer.Looking?
  {
    var Looking(f, img) := s.producer;
    match p
    case Full => s
    case Direct => s.(producer := Filling(f, img, s.writeIdx, 0))
    case AfterSkip => s.(producer := Marking(f, img, true, 0))
    case SkipThenFull => s.(producer := Marking(f, img, false, 0))
  }

  function ApplySample(s: State, seen: nat): State
    requires WellFormed(s)
  {
    if s.producer.Looking? && Observable(s, seen) then
      Placed(s.(lastSeen := seen), Place(s.ds, s.writeIdx, seen, FrameLen(s.producer.frame)))
    else s
  }

  function ApplyPutZero(s: State): State
    requires WellFormed(s)
  {
    if s.producer.Marking? then
      var Marking(f, img, room, done) := s.producer;
      if done < MarkerLen(s.ds, s.writeIdx) then
        Store(s, s.writeIdx + done, 0).(producer := Marking(f, img, room, done + 1))
      else if room then s.(producer := Filling(f, img, s.writeIdx + Contig(s.writeIdx, s.ds), 0))
      else s.(producer := Looking(f, img))
    else s
  }

  function ApplyPutByte(s: State): State
    requires WellFormed(s)
  {
    if s.producer.Filling? && s.producer.done < |s.producer.image| then
      var Filling(f, img, start, done) := s.producer;
      Store(s, start + done, img[done]).(producer := Filling(f, img, start, done + 1))
    else s
  }

  function ApplyPutHeader(s: State): State
    requires WellFormed(s)
  {
    if s.producer.Heading? && s.producer.done < HEADER && s.producer.done < |s.producer.image| then
      var Heading(f, img, done) := s.producer;
      Store(s, s.writeIdx + done, img[done]).(producer := Heading(f, img, done + 1))
    else s
  }

  function ApplyPublish(s: State): State {
    match s.producer
    case Filling(f, img, start, done) =>
      if done == |img| then
        s.(producer := Resting, writeIdx := start + FrameLen(f), sent := s.sent + [f])
      else s
    case Heading(f, img, done) =>
      if done == HEADER then
        s.(producer := Resting, writeIdx := s.writeIdx + FrameLen(f), sent := s.sent + [f])
      else s
    case _ => s
  }

  function Spanned(s: State, cap: nat): State { s.(producer := if cap == 0 then Resting else Spanning(cap)) }

  function ApplyTakeSpan(s: State, seen: nat): State
    requires WellFormed(s)
  {
    if s.producer.Resting? && Observable(s, seen) then
      Spanned(s.(lastSeen := seen), SpanCap(s.ds, s.writeIdx, seen))
    else s
  }

  /** The body that a commit of bodyLen bytes publishes: whatever the serialiser left in the span. */
  function SpanBody(s: State, bodyLen: nat): seq<byte>
    requires WellFormed(s) && HEADER + bodyLen <= Contig(s.writeIdx, s.ds)
  {
    var o := Off(s.writeIdx, s.ds);
    s.data[o + HEADER..o + HEADER + bodyLen]
  }

  function ApplyCommit(s: State, bodyLen: nat, kind: int32): State
    requires WellFormed(s)
  {
    if && s.producer.Spanning? && bodyLen <= s.producer.cap && HEADER + bodyLen < TWO32
       && HEADER + bodyLen <= Contig(s.writeIdx, s.ds)
    then
      var f := Frame(kind, SpanBody(s, bodyLen));
      s.(producer := Heading(f, Encode(f), 0))
    else s
  }

  // ----- consumer -----

  /** The value of write_idx that the n-th publication stored. */
  function Stored(s: State, n: nat): nat
    requires s.ds > 0 && n <= |s.sent|
  {
    EndOf(s.ds, s.sent[..n])
  }

  /** A load may return any value stored between the last one seen and the current one. */
  function ApplyLoad(s: State, n: nat): State
    requires WellFormed(s)
  {
    if s.consumer.Looping? && s.known <= n <= |s.sent| then
      s.(known := n, consumer := if Stored(s, n) == s.readIdx then Ready else Loaded(s.consumer.skips))
    else s
  }

  function ApplyInspect(s: State): State
    requires WellFormed(s)
  {
    if s.consumer.Loaded? then OnHeader(s, ReadHeader(s.data, Off(s.readIdx, s.ds))) else s
  }

  function OnHeader(s: State, h: Header): State
    requires WellFormed(s) && s.consumer.Loaded?
  {
    match h
    case Skip => s.(readIdx := s.readIdx + Contig(s.readIdx, s.ds), consumer := Looping(s.consumer.skips + 1))
    case Corrupt => s.(consumer := Failed)
    case Whole(len, kind) => s.(consumer := Pinned(len, kind, None))
  }

  /** The bytes a pinned view shows right now. */
  function ViewBytes(s: State): seq<byte>
    requires WellFormed(s) && s.consumer.Pinned? && HEADER <= s.consumer.len <= Contig(s.readIdx, s.ds)
  {
    var o := Off(s.readIdx, s.ds);
    s.data[o + HEADER..o + s.consumer.len]
  }

  predicate ViewInRange(s: State)
    requires WellFormed(s)
  {
    s.consumer.Pinned? && HEADER <= s.consumer.len <= Contig(s.readIdx, s.ds)
  }

  function ApplyRelease(s: State): State
    requires WellFormed(s)
  {
    if ViewInRange(s) then
      var body := if s.consumer.copy.Some? then s.consumer.copy.value else ViewBytes(s);
      s.(readIdx := s.readIdx + s.consumer.len, consumer := Ready,
         received := s.received + [Frame(s.consumer.kind, body)])
    else s
  }

  function Apply(s: State, a: Action): State
    requires WellFormed(s)
  {
    match a
    case BeginWrite(f) =>
      if s.producer.Resting? && Sendable(f) && FrameLen(f) <= s.ds then s.(producer := Looking(f, Encode(f))) else s
    case Sample(seen) => ApplySample(s, seen)
    case GiveUp => if s.producer.Looking? then s.(producer := Resting) else s
    case PutZero => ApplyPutZero(s)
    case PutByte => ApplyPutByte(s)
    case PutHeader => ApplyPutHeader(s)
    case Publish => ApplyPublish(s)
    case TakeSpan(seen) => ApplyTakeSpan(s, seen)
    case Scribble(i, b) =>
      if s.producer.Spanning? && i < s.producer.cap then Store(s, s.writeIdx + HEADER + i, b) else s
    case DropSpan => if s.producer.Spanning? then s.(producer := Resting) else s
    case Commit(bodyLen, kind) => ApplyCommit(s, bodyLen, kind)
    case BeginRead => if s.consumer.Ready? then s.(consumer := Looping(0)) else s
    case Load(n) => ApplyLoad(s, n)
    case Inspect => ApplyInspect(s)
    case CopyOut =>
      if ViewInRange(s) then s.(consumer := s.consumer.(copy := Some(ViewBytes(s)))) else s
    case Release => ApplyRelease(s)
  }

  lemma ApplyWellFormed(s: State, a: Action)
    requires WellFormed(s)
    ensures WellFormed(Apply(s, a)) && Apply(s, a).ds == s.ds
  {
  }

  function Run(s: State, acts: seq<Action>): (t: State)
    requires WellFormed(s)
    ensures WellFormed(t) && t.ds == s.ds
    decreases |acts|
  {
    if acts == [] then s
    else
      ApplyWellFormed(s, acts[0]);
      Run(Apply(s, acts[0]), acts[1..])
  }

  // ----- invariant -----

  /** Frames published and not yet released. */
  function Pending(s: State): seq<Frame>
    requires |s.received| <= |s.sent|
  {
    s.sent[|s.received|..]
  }

  /** Bytes lo..hi after position x are already those of the image. */
  ghost predicate Written(data: seq<byte>, ds: nat, x: nat, img: seq<byte>, lo: nat, hi: nat)
    requires ds > 0 && |data| == ds && hi <= |img|
  {
    forall k: nat :: lo <= k < hi ==> ByteAt(data, ds, x, k) == img[k]
  }

  ghost predicate ProducerInv(s: State)
    requires WellFormed(s)
  {
    var w := s.writeIdx;
    match s.producer
    case Resting => true
    case Looking(f, img) => IsImage(img, f) && |img| <= s.ds
    case Marking(f, img, room, done) =>
      && IsImage(img, f) && |img| <= s.ds
      && Contig(w, s.ds) < |img|
      && w + Contig(w, s.ds) <= s.lastSeen + s.ds
      && (room ==> w + Contig(w, s.ds) + |img| <= s.lastSeen + s.ds)
      && done <= MarkerLen(s.ds, w)
      && (forall k: nat :: k < done ==> ByteAt(s.data, s.ds, w, k) == 0)
    case Filling(f, img, start, done) =>
      IsImage(img, f) && Filled(s.data, s.ds, w, s.lastSeen, img, start, done)
    case Spanning(cap) =>
      && HEADER + cap <= Contig(w, s.ds)
      && w + HEADER + cap <= s.lastSeen + s.ds
    case Heading(f, img, done) =>
      IsImage(img, f) && Headed(s.data, s.ds, w, s.lastSeen, img, done)
  }

  /** The first done bytes of the image are in place at start, behind the marker if there is one. */
  ghost predicate Filled(data: seq<byte>, ds: nat, w: nat, seen: nat, img: seq<byte>, start: nat, done: nat)
    requires ds > 0 && |data| == ds
  {
    && |img| <= ds && start == Start(ds, w, |img|) && start + |img| <= seen + ds
    && (start != w ==> MarkerAt(data, ds, w))
    && done <= |img| && Written(data, ds, start, img, 0, done)
  }

  /** The body of the image and the first done bytes of its header are in place at w. */
  ghost predicate Headed(data: seq<byte>, ds: nat, w: nat, seen: nat, img: seq<byte>, done: nat)
    requires ds > 0 && |data| == ds
  {
    && HEADER <= |img| <= Contig(w, ds) && w + |img| <= seen + ds && done <= HEADER
    && Written(data, ds, w, img, 0, done) && Written(data, ds, w, img, HEADER, |img|)
  }

  ghost predicate ConsumerInv(s: State)
    requires WellFormed(s) && |s.received| <= |s.sent|
  {
    var q := Pending(s);
    match s.consumer
    case Ready => true
    case Looping(n) => n <= 1 && (n == 1 ==> q != [] && Start(s.ds, s.readIdx, FrameLen(q[0])) == s.readIdx)
    case Loaded(n) => n <= 1 && q != [] && (n == 1 ==> Start(s.ds, s.readIdx, FrameLen(q[0])) == s.readIdx)
    case Pinned(len, kind, copy) =>
      && q != []
      && Start(s.ds, s.readIdx, FrameLen(q[0])) == s.readIdx
      && len == FrameLen(q[0]) && kind == q[0].kind
      && (copy.Some? ==> copy.value == q[0].body)
    case Failed => false
  }

  ghost predicate CoreInv(s: State) {
    && WellFormed(s)
    && s.lastSeen <= s.readIdx <= s.writeIdx <= s.lastSeen + s.ds
    && s.received <= s.sent
    && Queued(s.data, s.ds, s.readIdx, s.writeIdx, Pending(s))
    && ConsumerInv(s)
  }

  ghost predicate RingInv(s: State) { CoreInv(s) && ProducerInv(s) }

  // ----- every step keeps it -----

  /** A store at a free position keeps everything but what the producer knows about its own bytes. */
  lemma StoreKeeps(s: State, x: nat, b: byte, t: State)
    requires CoreInv(s) && s.writeIdx <= x < s.lastSeen + s.ds
    requires t == s.(data := s.data[Off(x, s.ds) := b], producer := t.producer)
    ensures CoreInv(t)
  {
    WriteFree(s.data, s.ds, s.readIdx, s.writeIdx, x, b);
    QueuedAgree(s.data, t.data, s.ds, s.readIdx, s.writeIdx, Pending(s));
  }

  /** A store k places after x changes no other byte less than one lap after x. */
  lemma {:induction false} StoreElsewhere(data: seq<byte>, ds: nat, x: nat, k: nat, b: byte)
    requires ds > 0 && |data| == ds && k < ds
    ensures var d := data[Off(x + k, ds) := b];
            && ByteAt(d, ds, x, k) == b
            && forall j: nat :: j < ds && j != k ==> ByteAt(d, ds, x, j) == ByteAt(data, ds, x, j)
  {
    var d := data[Off(x + k, ds) := b];
    forall j: nat | j < ds && j != k ensures ByteAt(d, ds, x, j) == ByteAt(data, ds, x, j) {
      if j < k { OffDistinct(x + j, x + k, ds); } else { OffDistinct(x + k, x + j, ds); }
    }
  }

  lemma {:induction false} WrittenExtend(data: seq<byte>, ds: nat, x: nat, img: seq<byte>, k: nat)
    requires ds > 0 && |data| == ds && k < |img| <= ds && Written(data, ds, x, img, 0, k)
    ensures Written(data[Off(x + k, ds) := img[k]], ds, x, img, 0, k + 1)
    ensures k < HEADER <= |img| && Written(data, ds, x, img, HEADER, |img|) ==>
              Written(data[Off(x + k, ds) := img[k]], ds, x, img, HEADER, |img|)
  {
    StoreElsewhere(data, ds, x, k, img[k]);
  }

  lemma {:induction false} MarkerElsewhere(data: seq<byte>, ds: nat, w: nat, k: nat, b: byte)
    requires ds > 0 && |data| == ds && MarkerAt(data, ds, w) && MarkerLen(ds, w) <= k < ds
    ensures MarkerAt(data[Off(w + k, ds) := b], ds, w)
  {
    StoreElsewhere(data, ds, w, k, b);
  }

  lemma SampleKeeps(s: State, seen: nat)
    requires RingInv(s)
    ensures RingInv(ApplySample(s, seen))
  {
    if s.producer.Looking? && Observable(s, seen) {
      PlaceRoom(s.ds, s.writeIdx, seen, FrameLen(s.producer.frame));
    }
  }

  lemma PutZeroKeeps(s: State)
    requires RingInv(s)
    ensures RingInv(ApplyPutZero(s))
  {
    if s.producer.Marking? && s.producer.done < MarkerLen(s.ds, s.writeIdx) {
      PutZeroProducer(s);
      PutZeroCore(s);
    } else {
      MarkedProducer(s);
    }
  }

  lemma PutZeroCore(s: State)
    requires CoreInv(s) && ProducerInv(s) && s.producer.Marking? && s.producer.done < MarkerLen(s.ds, s.writeIdx)
    ensures CoreInv(ApplyPutZero(s))
  {
    StoreKeeps(s, s.writeIdx + s.producer.done, 0, ApplyPutZero(s));
  }

  lemma MarkedProducer(s: State)
    requires WellFormed(s) && ProducerInv(s)
    requires s.producer.Marking? ==> s.producer.done >= MarkerLen(s.ds, s.writeIdx)
    ensures ProducerInv(ApplyPutZero(s))
  {
  }

  lemma PutZeroProducer(s: State)
    requires WellFormed(s) && ProducerInv(s) && s.producer.Marking? && s.producer.done < MarkerLen(s.ds, s.writeIdx)
    ensures ProducerInv(ApplyPutZero(s))
  {
    StoreElsewhere(s.data, s.ds, s.writeIdx, s.producer.done, 0);
  }

  lemma PutByteKeeps(s: State)
    requires RingInv(s)
    ensures RingInv(ApplyPutByte(s))
  {
    if s.producer.Filling? && s.producer.done < |s.producer.image| {
      PutByteProducer(s);
      PutByteCore(s);
    }
  }

  lemma PutByteCore(s: State)
    requires CoreInv(s) && ProducerInv(s) && s.producer.Filling? && s.producer.done < |s.producer.image|
    ensures CoreInv(ApplyPutByte(s))
  {
    var Filling(f, img, start, done) := s.producer;
    StoreKeeps(s, start + done, img[done], ApplyPutByte(s));
  }

  lemma PutByteProducer(s: State)
    requires WellFormed(s) && ProducerInv(s) && s.producer.Filling? && s.producer.done < |s.producer.image|
    requires s.lastSeen <= s.writeIdx
    ensures ProducerInv(ApplyPutByte(s))
  {
    var Filling(f, img, start, done) := s.producer;
    FilledStep(s.data, s.ds, s.writeIdx, s.lastSeen, img, start, done);
  }

  lemma {:induction false} FilledStep(data: seq<byte>, ds: nat, w: nat, seen: nat, img: seq<byte>, start: nat, done: nat)
    requires ds > 0 && |data| == ds && seen <= w && done < |img| && Filled(data, ds, w, seen, img, start, done)
    ensures Filled(data[Off(start + done, ds) := img[done]], ds, w, seen, img, start, done + 1)
  {
    WrittenExtend(data, ds, start, img, done);
    if start != w { MarkerElsewhere(data, ds, w, start - w + done, img[done]); }
  }

  lemma PutHeaderKeeps(s: State)
    requires RingInv(s)
    ensures RingInv(ApplyPutHeader(s))
  {
    if s.producer.Heading? && s.producer.done < HEADER {
      PutHeaderProducer(s);
      PutHeaderCore(s);
    }
  }

  lemma PutHeaderCore(s: State)
    requires CoreInv(s) && ProducerInv(s) && s.producer.Heading? && s.producer.done < HEADER
    ensures CoreInv(ApplyPutHeader(s))
  {
    StoreKeeps(s, s.writeIdx + s.producer.done, s.producer.image[s.producer.done], ApplyPutHeader(s));
  }

  lemma PutHeaderProducer(s: State)
    requires WellFormed(s) && ProducerInv(s) && s.producer.Heading? && s.producer.done < HEADER
    ensures ProducerInv(ApplyPutHeader(s))
  {
    HeadedStep(s.data, s.ds, s.writeIdx, s.lastSeen, s.producer.image, s.producer.done);
  }

  lemma {:induction false} HeadedStep(data: seq<byte>, ds: nat, w: nat, seen: nat, img: seq<byte>, done: nat)
    requires ds > 0 && |data| == ds && done < HEADER && Headed(data, ds, w, seen, img, done)
    ensures Headed(data[Off(w + done, ds) := img[done]], ds, w, seen, img, done + 1)
  {
    WrittenExtend(data, ds, w, img, done);
  }

  /** The producer's own bytes, once complete, are what a reader at write_idx would come to. */
  lemma Completed(s: State)
    requires WellFormed(s) && ProducerInv(s) && ApplyPublish(s) != s
    ensures var f := s.producer.frame;
            && HeadAt(s.data, s.ds, s.writeIdx, Next(s.ds, s.writeIdx, f), f)
            && ApplyPublish(s) == Published(s, f) && Next(s.ds, s.writeIdx, f) <= s.lastSeen + s.ds
  {
    var img := s.producer.image;
    StartFits(s.ds, s.writeIdx, |img|);
    WholeImage(s.data, s.ds, Start(s.ds, s.writeIdx, |img|), img, s.producer.frame);
  }

  function Published(s: State, f: Frame): State
    requires s.ds > 0
  {
    s.(producer := Resting, writeIdx := Next(s.ds, s.writeIdx, f), sent := s.sent + [f])
  }

  /** An image written byte by byte is the frame at that position. */
  lemma {:induction false} WholeImage(data: seq<byte>, ds: nat, start: nat, img: seq<byte>, f: Frame)
    requires ds > 0 && |data| == ds && IsImage(img, f) && |img| <= Contig(start, ds)
    requires forall k: nat :: k < |img| ==> ByteAt(data, ds, start, k) == img[k]
    ensures FrameAt(data, ds, start, f)
  {
    ImageIsEncode(img, f);
  }

  lemma PublishKeeps(s: State)
    requires RingInv(s)
    ensures RingInv(ApplyPublish(s))
  {
    if ApplyPublish(s) != s {
      Completed(s);
      PublishCore(s, s.producer.frame);
    }
  }

  lemma PublishCore(s: State, f: Frame)
    requires CoreInv(s) && HeadAt(s.data, s.ds, s.writeIdx, Next(s.ds, s.writeIdx, f), f)
    requires Next(s.ds, s.writeIdx, f) <= s.lastSeen + s.ds
    ensures CoreInv(Published(s, f))
  {
    QueuedAppend(s.data, s.ds, s.readIdx, s.writeIdx, Pending(s), f);
    PublishedCore(s, f);
  }

  lemma PublishedCore(s: State, f: Frame)
    requires CoreInv(s) && Next(s.ds, s.writeIdx, f) <= s.lastSeen + s.ds
    requires Queued(s.data, s.ds, s.readIdx, Next(s.ds, s.writeIdx, f), Pending(s) + [f])
    ensures CoreInv(Published(s, f))
  {
    assert Pending(Published(s, f)) == Pending(s) + [f];
    PublishConsumer(s, Published(s, f));
  }

  /** What the consumer knows survives a publication. */
  lemma PublishConsumer(s: State, t: State)
    requires WellFormed(s) && |s.received| <= |s.sent| && ConsumerInv(s)
    requires t == s.(producer := t.producer, writeIdx := t.writeIdx, sent := t.sent) && s.sent <= t.sent
    ensures ConsumerInv(t)
  {
    if Pending(s) != [] { assert Pending(t)[0] == Pending(s)[0]; }
  }

  lemma CommitKeeps(s: State, bodyLen: nat, kind: int32)
    requires RingInv(s)
    ensures RingInv(ApplyCommit(s, bodyLen, kind))
  {
    var t := ApplyCommit(s, bodyLen, kind);
    if t != s {
      EncodeIsImage(t.producer.frame);
      BodyInPlace(s, bodyLen, kind);
    }
  }

  lemma BodyInPlace(s: State, bodyLen: nat, kind: int32)
    requires WellFormed(s) && HEADER + bodyLen <= Contig(s.writeIdx, s.ds) && HEADER + bodyLen < TWO32
    ensures var f := Frame(kind, SpanBody(s, bodyLen));
            Written(s.data, s.ds, s.writeIdx, Encode(f), HEADER, FrameLen(f))
  {
    var f := Frame(kind, SpanBody(s, bodyLen));
    EncodeIsImage(f);
    BodyWritten(s.data, s.ds, s.writeIdx, Encode(f), f);
  }

  lemma {:induction false} BodyWritten(data: seq<byte>, ds: nat, w: nat, img: seq<byte>, f: Frame)
    requires ds > 0 && |data| == ds && IsImage(img, f) && FrameLen(f) <= Contig(w, ds)
    requires data[Off(w, ds) + HEADER..Off(w, ds) + FrameLen(f)] == f.body
    ensures Written(data, ds, w, img, HEADER, |img|)
  {
    var o := Off(w, ds);
    forall k: nat | HEADER <= k < |img| ensures ByteAt(data, ds, w, k) == img[k] {
      OffNext(w, k, ds);
      assert data[o + k] == data[o + HEADER..o + |img|][k - HEADER] && img[k] == img[HEADER..FrameLen(f)][k - HEADER];
    }
  }

  lemma InspectKeeps(s: State)
    requires RingInv(s)
    ensures RingInv(ApplyInspect(s))
  {
    if s.consumer.Loaded? {
      if Start(s.ds, s.readIdx, FrameLen(Pending(s)[0])) == s.readIdx { PinOutcome(s); } else { SkipOutcome(s); }
    }
  }

  lemma PinKeeps(s: State, len: nat, kind: int32)
    requires RingInv(s) && s.consumer.Loaded?
    requires var q := Pending(s);
             len == FrameLen(q[0]) && kind == q[0].kind && Start(s.ds, s.readIdx, len) == s.readIdx
    ensures RingInv(OnHeader(s, Whole(len, kind)))
  {
  }

  /** The consumer may move to a later position from which the same frames are queued. */
  lemma SkipKeeps(s: State, r: nat)
    requires RingInv(s) && Pending(s) != [] && s.readIdx <= r <= s.writeIdx
    requires Queued(s.data, s.ds, r, s.writeIdx, Pending(s)) && Start(s.ds, r, FrameLen(Pending(s)[0])) == r
    ensures RingInv(s.(readIdx := r, consumer := Looping(1)))
  {
    SkipCore(s, r);
    ProducerFrame(s, s.(readIdx := r, consumer := Looping(1)));
  }

  lemma SkipCore(s: State, r: nat)
    requires WellFormed(s) && s.received <= s.sent && Pending(s) != []
    requires s.lastSeen <= r <= s.writeIdx <= s.lastSeen + s.ds && Queued(s.data, s.ds, r, s.writeIdx, Pending(s))
    requires Start(s.ds, r, FrameLen(Pending(s)[0])) == r
    ensures CoreInv(s.(readIdx := r, consumer := Looping(1)))
  {
    assert Pending(s.(readIdx := r, consumer := Looping(1))) == Pending(s);
  }

  /** A pass that meets the skip marker moves read_idx to the frame. */
  lemma SkipOutcome(s: State)
    requires RingInv(s) && s.consumer.Loaded? && Start(s.ds, s.readIdx, FrameLen(Pending(s)[0])) != s.readIdx
    ensures var r := Start(s.ds, s.readIdx, FrameLen(Pending(s)[0]));
            && s.consumer.skips == 0 && ApplyInspect(s) == s.(readIdx := r, consumer := Looping(1))
            && RingInv(ApplyInspect(s)) && Off(r, s.ds) == 0 && Start(s.ds, r, FrameLen(Pending(s)[0])) == r
  {
    SkipTarget(s.data, s.ds, s.readIdx, s.writeIdx, Pending(s));
    SkipKeeps(s, Start(s.ds, s.readIdx, FrameLen(Pending(s)[0])));
  }

  /** What the producer knows does not depend on the consumer. */
  lemma ProducerFrame(s: State, t: State)
    requires WellFormed(s) && ProducerInv(s) && t.ds == s.ds && t.data == s.data && t.writeIdx == s.writeIdx
    requires t.lastSeen == s.lastSeen && t.producer == s.producer
    ensures WellFormed(t) && ProducerInv(t)
  {
  }

  /** A pinned view shows the body of the oldest unreleased frame. */
  lemma ViewShowsHead(s: State)
    requires RingInv(s) && s.consumer.Pinned?
    ensures ViewInRange(s) && Pending(s) != [] && ViewBytes(s) == Pending(s)[0].body
  {
    ReadQueued(s.data, s.ds, s.readIdx, s.writeIdx, Pending(s));
  }

  /** A pass that finds the oldest frame at read_idx pins it. */
  lemma PinOutcome(s: State)
    requires RingInv(s) && s.consumer.Loaded? && Start(s.ds, s.readIdx, FrameLen(Pending(s)[0])) == s.readIdx
    ensures var f := Pending(s)[0];
            var t := s.(consumer := Pinned(FrameLen(f), f.kind, None));
            ApplyInspect(s) == t && RingInv(t) && ViewInRange(t) && ViewBytes(t) == f.body
  {
    var f := Pending(s)[0];
    ReadQueued(s.data, s.ds, s.readIdx, s.writeIdx, Pending(s));
    PinKeeps(s, FrameLen(f), f.kind);
    ViewShowsHead(s.(consumer := Pinned(FrameLen(f), f.kind, None)));
  }

  /** A copy taken from a pinned view is the body of the oldest unreleased frame. */
  lemma CopyIsFrame(s: State)
    requires RingInv(s) && s.consumer.Pinned?
    ensures Apply(s, CopyOut).consumer == s.consumer.(copy := Some(s.sent[|s.received|].body))
  {
    ViewShowsHead(s);
  }

  lemma ReleaseKeeps(s: State)
    requires RingInv(s)
    ensures RingInv(ApplyRelease(s))
  {
    if s.consumer.Pinned? {
      ViewShowsHead(s);
      var t := ApplyRelease(s);
      assert Pending(t) == Pending(s)[1..];
      QueuedOrder(s.data, s.ds, t.readIdx, s.writeIdx, Pending(t));
    }
  }

  /** A release delivers the oldest frame and moves past it. */
  lemma ReleaseIs(s: State)
    requires RingInv(s) && s.consumer.Pinned?
    ensures var f := Pending(s)[0];
            && ApplyRelease(s) == s.(readIdx := s.readIdx + FrameLen(f), consumer := Ready, received := s.received + [f])
            && f == s.sent[|s.received|] && Start(s.ds, s.readIdx, FrameLen(f)) == s.readIdx
  {
    ViewShowsHead(s);
  }

  lemma ScribbleKeeps(s: State, i: nat, b: byte)
    requires RingInv(s)
    ensures RingInv(Apply(s, Scribble(i, b)))
  {
    if s.producer.Spanning? && i < s.producer.cap {
      assert s.writeIdx + HEADER + i < s.lastSeen + s.ds;
      ScribbleCore(s, s.writeIdx + HEADER + i, b);
    }
  }

  lemma ScribbleCore(s: State, x: nat, b: byte)
    requires RingInv(s) && s.producer.Spanning? && s.writeIdx <= x < s.lastSeen + s.ds
    ensures RingInv(Store(s, x, b))
  {
    StoreKeeps(s, x, b, Store(s, x, b));
  }

  lemma CopyOutKeeps(s: State)
    requires RingInv(s)
    ensures RingInv(Apply(s, CopyOut))
  {
    if s.consumer.Pinned? { ViewShowsHead(s); }
  }

  lemma BeginWriteKeeps(s: State, f: Frame)
    requires RingInv(s)
    ensures RingInv(Apply(s, BeginWrite(f)))
  {
    if Sendable(f) { EncodeIsImage(f); }
  }

  lemma TakeSpanKeeps(s: State, seen: nat)
    requires RingInv(s)
    ensures RingInv(ApplyTakeSpan(s, seen))
  {
  }

  lemma GiveUpKeeps(s: State)
    requires RingInv(s)
    ensures RingInv(s.(producer := Resting))
  {
  }

  lemma BeginReadKeeps(s: State)
    requires RingInv(s) && s.consumer.Ready?
    ensures RingInv(s.(consumer := Looping(0)))
  {
  }

  predicate OfConsumer(a: Action) { a.BeginRead? || a.Load? || a.Inspect? || a.CopyOut? || a.Release? }

  lemma ConsumerStepKeeps(s: State, a: Action)
    requires RingInv(s) && OfConsumer(a) && !a.Load?
    ensures RingInv(Apply(s, a))
  {
    match a
    case BeginRead => if s.consumer.Ready? { BeginReadKeeps(s); }
    case Inspect => InspectKeeps(s);
    case CopyOut => CopyOutKeeps(s);
    case Release => ReleaseKeeps(s);
  }

  lemma ProducerStepKeeps(s: State, a: Action)
    requires RingInv(s) && !OfConsumer(a)
    ensures RingInv(Apply(s, a))
  {
    if StoresByte(a) { StoreStepKeeps(s, a); }
    else if a.Commit? { CommitKeeps(s, a.bodyLen, a.kind); }
    else if a.Scribble? || a.TakeSpan? || a.DropSpan? { SpanStepKeeps(s, a); }
    else {
      match a
      case BeginWrite(f) => BeginWriteKeeps(s, f);
      case Sample(seen) => SampleKeeps(s, seen);
      case Publish => PublishKeeps(s);
      case GiveUp => GiveUpKeeps(s);
    }
  }

  lemma SpanStepKeeps(s: State, a: Action)
    requires RingInv(s) && (a.Scribble? || a.TakeSpan? || a.DropSpan?)
    ensures RingInv(Apply(s, a))
  {
    match a
    case Scribble(i, b) => ScribbleKeeps(s, i, b);
    case TakeSpan(seen) => TakeSpanKeeps(s, seen);
    case DropSpan => GiveUpKeeps(s);
  }

  predicate StoresByte(a: Action) { a.PutZero? || a.PutByte? || a.PutHeader? }

  lemma StoreStepKeeps(s: State, a: Action)
    requires RingInv(s) && StoresByte(a)
    ensures RingInv(Apply(s, a))
  {
    match a
    case PutZero => PutZeroKeeps(s);
    case PutByte => PutByteKeeps(s);
    case PutHeader => PutHeaderKeeps(s);
  }

  // ----- the values write_idx has had -----

  /** The consumer is past a load that showed it a frame it has not received. */
  predicate Committed(c: Consumer) { c.Loaded? || c.Pinned? || (c.Looping? && c.skips > 0) }

  /** write_idx is what the last publication stored, and the consumer stands where it knows a publication ended, or past the marker behind it. */
  ghost predicate History(s: State) {
    && s.ds > 0 && s.received <= s.sent && |s.received| <= s.known <= |s.sent|
    && s.writeIdx == EndOf(s.ds, s.sent)
    && (s.readIdx == EndOf(s.ds, s.received)
        || (s.known > |s.received|
            && s.readIdx == Start(s.ds, EndOf(s.ds, s.received), FrameLen(s.sent[|s.received|]))))
    && (Committed(s.consumer) ==> s.known > |s.received|)
  }

  /** What a load finds: read_idx itself exactly when it shows no frame beyond the received ones, and never a value out of reach. */
  lemma LoadValue(s: State, n: nat)
    requires History(s) && s.known <= n <= |s.sent|
    ensures Stored(s, n) == s.readIdx <==> n == |s.received|
    ensures s.readIdx <= Stored(s, n) <= s.writeIdx
  {
    var r := |s.received|;
    assert s.sent[..r] == s.received && s.sent[..|s.sent|] == s.sent;
    EndOfGrows(s.ds, s.sent, n, |s.sent|);
    if n > r {
      EndOfGrows(s.ds, s.sent, r + 1, n);
      EndOfStep(s.ds, s.sent, r);
    }
  }

  /** What the consumer may turn to once it has loaded write_idx. */
  lemma LoadedKeeps(s: State, n: nat)
    requires RingInv(s) && s.consumer.Looping?
    ensures RingInv(s.(known := n, consumer := Ready))
    ensures |s.received| < |s.sent| ==> RingInv(s.(known := n, consumer := Loaded(s.consumer.skips)))
  {
  }

  lemma HistoryLoad(s: State, n: nat)
    requires WellFormed(s) && History(s)
    ensures History(ApplyLoad(s, n))
  {
    if s.consumer.Looping? && s.known <= n <= |s.sent| { LoadValue(s, n); }
  }

  lemma LoadKeeps(s: State, n: nat)
    requires RingInv(s) && History(s)
    ensures RingInv(ApplyLoad(s, n)) && History(ApplyLoad(s, n))
  {
    HistoryLoad(s, n);
    if s.consumer.Looping? && s.known <= n <= |s.sent| {
      LoadValue(s, n);
      LoadedKeeps(s, n);
    }
  }

  lemma HistoryPublish(s: State)
    requires WellFormed(s) && ProducerInv(s) && History(s)
    ensures History(ApplyPublish(s))
  {
    if ApplyPublish(s) != s {
      Completed(s);
      EndOfAppend(s.ds, s.sent, s.producer.frame);
    }
  }

  lemma HistoryInspect(s: State)
    requires RingInv(s) && History(s)
    ensures History(ApplyInspect(s))
  {
    if s.consumer.Loaded? {
      var f := Pending(s)[0];
      ReadQueued(s.data, s.ds, s.readIdx, s.writeIdx, Pending(s));
      StartFits(s.ds, EndOf(s.ds, s.received), FrameLen(f));
    }
  }

  lemma HistoryRelease(s: State)
    requires RingInv(s) && History(s)
    ensures History(ApplyRelease(s))
  {
    if s.consumer.Pinned? {
      ReleaseIs(s);
      HistoryReleased(s);
    }
  }

  lemma HistoryReleased(s: State)
    requires History(s) && s.consumer.Pinned?
    requires Start(s.ds, s.readIdx, FrameLen(s.sent[|s.received|])) == s.readIdx
    ensures var f := s.sent[|s.received|];
            History(s.(readIdx := s.readIdx + FrameLen(f), consumer := Ready, received := s.received + [f]))
  {
    EndOfAppend(s.ds, s.received, s.sent[|s.received|]);
  }

  lemma HistoryFrame(s: State, t: State)
    requires History(s) && t.ds == s.ds && t.sent == s.sent && t.received == s.received && t.known == s.known
    requires t.readIdx == s.readIdx && t.writeIdx == s.writeIdx && (Committed(t.consumer) ==> Committed(s.consumer))
    ensures History(t)
  {
  }

  /** The other steps touch nothing of this. */
  lemma LeavesHistory(s: State, a: Action)
    requires WellFormed(s) && !a.Publish? && !a.Load? && !a.Inspect? && !a.Release?
    ensures var t := Apply(s, a);
            && t.ds == s.ds && t.sent == s.sent && t.received == s.received && t.known == s.known
            && t.readIdx == s.readIdx && t.writeIdx == s.writeIdx && (Committed(t.consumer) ==> Committed(s.consumer))
  {
  }

  lemma HistoryStepKeeps(s: State, a: Action)
    requires RingInv(s) && History(s) && !a.Load?
    ensures History(Apply(s, a))
  {
    if a.Publish? { HistoryPublish(s); }
    else if a.Inspect? { HistoryInspect(s); }
    else if a.Release? { HistoryRelease(s); }
    else { LeavesHistory(s, a); HistoryFrame(s, Apply(s, a)); }
  }

  lemma RingStepKeeps(s: State, a: Action)
    requires RingInv(s) && !a.Load?
    ensures RingInv(Apply(s, a))
  {
    if OfConsumer(a) { ConsumerStepKeeps(s, a); } else { ProducerStepKeeps(s, a); }
  }

  /** Every reachable state satisfies this. */
  ghost predicate Inv(s: State) { RingInv(s) && History(s) }

  lemma StepKeeps(s: State, a: Action)
    requires Inv(s)
    ensures Inv(Apply(s, a))
  {
    if a.Load? {
      LoadKeeps(s, a.n);
    } else {
      RingStepKeeps(s, a);
      HistoryStepKeeps(s, a);
    }
  }

  lemma {:induction false} RunKeeps(s: State, acts: seq<Action>)
    requires Inv(s)
    ensures Inv(Run(s, acts))
    decreases |acts|
  {
    if acts != [] {
      StepKeeps(s, acts[0]);
      RunKeeps(Apply(s, acts[0]), acts[1..]);
    }
  }

  // ----- main results -----

  /** Whatever the interleaving, the frames received are a prefix of the frames sent, and the rest is in the ring. */
  lemma FifoDelivery(data: seq<byte>, acts: seq<Action>)
    requires |data| > 0
    ensures var s := Run(Init(data), acts);
            && s.received <= s.sent
            && Queued(s.data, s.ds, s.readIdx, s.writeIdx, s.sent[|s.received|..])
  {
    RunKeeps(Init(data), acts);
  }

  /** The indices never cross, never run further apart than the ring, and no load makes the free-space subtraction negative. */
  lemma IndexBounds(data: seq<byte>, acts: seq<Action>)
    requires |data| > 0
    ensures var s := Run(Init(data), acts);
            && 0 <= s.writeIdx - s.readIdx <= s.ds
            && forall seen: nat :: s.lastSeen <= seen <= s.readIdx ==> Observable(s, seen)
  {
    RunKeeps(Init(data), acts);
  }

  predicate HoldsPin(acts: seq<Action>) { Release !in acts }

  lemma PinnedStep(s: State, a: Action)
    requires WellFormed(s) && s.consumer.Pinned? && a != Release
    ensures var t := Apply(s, a);
            && t.consumer.Pinned? && t.consumer.len == s.consumer.len && t.consumer.kind == s.consumer.kind
            && t.readIdx == s.readIdx && t.received == s.received && s.sent <= t.sent
  {
  }

  lemma {:induction false} PinnedRun(s: State, acts: seq<Action>)
    requires WellFormed(s) && s.consumer.Pinned? && HoldsPin(acts)
    ensures var t := Run(s, acts);
            && t.consumer.Pinned? && t.consumer.len == s.consumer.len && t.consumer.kind == s.consumer.kind
            && t.readIdx == s.readIdx && t.received == s.received && s.sent <= t.sent
    decreases |acts|
  {
    if acts != [] {
      PinnedStep(s, acts[0]);
      ApplyWellFormed(s, acts[0]);
      PinnedRun(Apply(s, acts[0]), acts[1..]);
    }
  }

  /** A view handed out at any reachable state keeps its place, its type and every byte until it is released. */
  lemma PinnedViewStable(data: seq<byte>, before: seq<Action>, after: seq<Action>)
    requires |data| > 0 && HoldsPin(after)
    requires Run(Init(data), before).consumer.Pinned?
    ensures var s := Run(Init(data), before);
            var t := Run(s, after);
            && ViewInRange(s) && ViewInRange(t) && |s.received| < |s.sent|
            && t.readIdx == s.readIdx && t.consumer.kind == s.consumer.kind
            && ViewBytes(t) == ViewBytes(s) == s.sent[|s.received|].body
            && s.consumer.kind == s.sent[|s.received|].kind
  {
    var s := Run(Init(data), before);
    RunKeeps(Init(data), before);
    RunKeeps(s, after);
    PinnedRun(s, after);
    ViewShowsHead(s);
    ViewShowsHead(Run(s, after));
  }

  /**
   The read loop in any reachable state: the corrupt-header branch is unreachable, at most one
   skip is taken per call, a call that skipped finds a frame, a call gives up exactly when its load
   shows no publication beyond the frames received, and the next pass over a loaded ring either skips for the
   first time or pins the oldest unreleased frame.
   */
  lemma ReadLoopOutcome(data: seq<byte>, acts: seq<Action>)
    requires |data| > 0
    ensures var s := Run(Init(data), acts);
            && !s.consumer.Failed?
            && (s.consumer.Looping? ==>
                  && s.consumer.skips <= 1 && (s.consumer.skips == 1 ==> s.readIdx < s.writeIdx)
                  && forall n: nat :: s.known <= n <= |s.sent| ==>
                       (Apply(s, Load(n)).consumer.Ready? <==> n == |s.received|))
            && (s.consumer.Loaded? ==>
                  var t := Apply(s, Inspect);
                  || (s.consumer.skips == 0 && t.consumer == Looping(1) && Off(t.readIdx, s.ds) == 0)
                  || (|s.received| < |s.sent| && t.readIdx == s.readIdx && ViewInRange(t)
                      && Frame(t.consumer.kind, ViewBytes(t)) == s.sent[|s.received|]))
  {
    var s := Run(Init(data), acts);
    RunKeeps(Init(data), acts);
    if s.consumer.Loaded? { InspectOutcome(s); }
    if s.consumer.Looping? { LoadOutcome(s); }
  }

  lemma LoadOutcome(s: State)
    requires Inv(s) && s.consumer.Looping?
    ensures s.consumer.skips == 1 ==> s.readIdx < s.writeIdx
    ensures forall n: nat :: s.known <= n <= |s.sent| ==> (Apply(s, Load(n)).consumer.Ready? <==> n == |s.received|)
  {
    LoadValue(s, |s.sent|);
    assert s.sent[..|s.sent|] == s.sent;
    forall n: nat | s.known <= n <= |s.sent| ensures Apply(s, Load(n)).consumer.Ready? <==> n == |s.received| {
      LoadValue(s, n);
    }
  }

  lemma InspectOutcome(s: State)
    requires RingInv(s) && s.consumer.Loaded?
    ensures var t := Apply(s, Inspect);
            || (s.consumer.skips == 0 && t.consumer == Looping(1) && Off(t.readIdx, s.ds) == 0)
            || (|s.received| < |s.sent| && t.readIdx == s.readIdx && ViewInRange(t)
                && Frame(t.consumer.kind, ViewBytes(t)) == s.sent[|s.received|])
  {
    if Start(s.ds, s.readIdx, FrameLen(Pending(s)[0])) == s.readIdx { PinOutcome(s); } else { SkipOutcome(s); }
  }
}
