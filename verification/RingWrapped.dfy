/**
 The ring with 64-bit indices: the same steps, but a stored index keeps its low 64 bits, the
 space checks subtract modulo 2^64, and a pinned end of 0 means "no pin".
 */
module RingWrapped {
  import opened Arith
  import opened Bytes
  import opened Options
  import opened RingLayout
  import opened RingProtocol
  import opened RingProgress
  import opened RingWrap

  /** 2^64 is a whole number of laps: the ring size divides it (OffIsMod). */
  predicate Ring64(ds: nat) { 0 < ds < TWO64 && Off(TWO64, ds) == 0 }

  function WrapProducer(p: Producer): Producer {
    if p.Filling? then p.(start := Wrap(p.start)) else p
  }

  /** Every stored index cut to 64 bits. */
  function Cut(s: State): (t: State)
    ensures WellFormed(s) && s.ds < TWO64 ==> WellFormed64(t)
  {
    s.(writeIdx := Wrap(s.writeIdx), readIdx := Wrap(s.readIdx), lastSeen := Wrap(s.lastSeen),
       producer := WrapProducer(s.producer))
  }

  ghost predicate WellFormed64(s: State) {
    && WellFormed(s) && s.ds < TWO64 && s.writeIdx < TWO64 && s.readIdx < TWO64 && s.lastSeen < TWO64
    && WrapProducer(s.producer) == s.producer
  }

  /** A load of read_idx returns a value between the last one seen and the current one. */
  predicate Observable64(s: State, seen: nat)
    requires WellFormed64(s) && seen < TWO64
  {
    Sub64(seen, s.lastSeen) <= Sub64(s.readIdx, s.lastSeen)
  }

  function SpanCap64(ds: nat, w: nat, seen: nat): nat
    requires 0 < ds < TWO64 && w < TWO64 && seen < TWO64
  {
    var avail := Sub64(ds, Sub64(w, seen));
    var room := if avail < Contig(w, ds) then avail else Contig(w, ds);
    if avail < HEADER || room <= HEADER then 0 else room - HEADER
  }

  function Sample64(s: State, seen: nat): State
    requires WellFormed64(s) && seen < TWO64
  {
    if s.producer.Looking? && Observable64(s, seen) then
      Placed(s.(lastSeen := seen), Place64(s.ds, s.writeIdx, seen, FrameLen(s.producer.frame)))
    else s
  }

  function TakeSpan64(s: State, seen: nat): State
    requires WellFormed64(s) && seen < TWO64
  {
    if s.producer.Resting? && Observable64(s, seen) then
      Spanned(s.(lastSeen := seen), SpanCap64(s.ds, s.writeIdx, seen))
    else s
  }

  /** A load of write_idx returns the low bits of a value stored earlier or last. */
  function Load64(s: State, n: nat): State
    requires WellFormed64(s)
  {
    if s.consumer.Looping? && s.known <= n <= |s.sent| then
      s.(known := n, consumer := if Wrap(Stored(s, n)) == s.readIdx then Ready else Loaded(s.consumer.skips))
    else s
  }

  /** The pinned end reads as "no pin". */
  predicate LostPin(s: State) { s.consumer.Pinned? && Wrap(s.readIdx + s.consumer.len) == 0 }

  function Apply64(s: State, a: Action): (t: State)
    requires WellFormed64(s)
    ensures WellFormed64(t) && t.ds == s.ds
  {
    match a
    case Sample(seen) => Sample64(s, Wrap(seen))
    case TakeSpan(seen) => TakeSpan64(s, Wrap(seen))
    case Load(n) => Load64(s, n)
    case BeginRead => if s.consumer.Ready? || LostPin(s) then s.(consumer := Looping(0)) else s
    case Release =>
      var t := ApplyRelease(s);
      if LostPin(s) then t.(readIdx := s.readIdx) else Cut(t)
    case _ =>
      ApplyWellFormed(s, a);
      Cut(Apply(s, a))
  }

  function Run64(s: State, acts: seq<Action>): (t: State)
    requires WellFormed64(s)
    ensures WellFormed64(t) && t.ds == s.ds
    decreases |acts|
  {
    if acts == [] then s else Run64(Apply64(s, acts[0]), acts[1..])
  }

  // ----- one step -----

  lemma {:induction false} OffSame(x: nat, k: nat, ds: nat)
    requires Ring64(ds)
    ensures Off(Wrap(x) + k, ds) == Off(x + k, ds) && Off(Wrap(x), ds) == Off(x, ds)
    ensures Add64(Wrap(x), k) == Wrap(x + k)
  {
    WrapAdd(x, k);
    CutByte(x, ds);
    CutByte(Wrap(x) + k, ds);
    CutByte(x + k, ds);
  }

  lemma {:induction false} CutByte(x: nat, ds: nat)
    requires Ring64(ds)
    ensures Off(Wrap(x), ds) == Off(x, ds)
  {
    OffIsMod(TWO64, ds);
    OffWrapped(x, ds);
  }

  /** The unbounded value a 64-bit load stands for. */
  function Unwrap(s: State, seen: nat): nat { s.lastSeen + Sub64(Wrap(seen), Wrap(s.lastSeen)) }

  function Lift(s: State, a: Action): Action {
    match a
    case Sample(seen) => Sample(Unwrap(s, seen))
    case TakeSpan(seen) => TakeSpan(Unwrap(s, seen))
    case _ => a
  }

  lemma {:induction false} SubInverse(a: nat, v: nat)
    requires v < TWO64
    ensures Wrap(a + Sub64(v, Wrap(a))) == v
  {
    WrapAdd(a, Sub64(v, Wrap(a)));
  }

  lemma {:induction false} SeenSame(s: State, seen: nat)
    requires RingInv(s) && s.ds < TWO64
    ensures Observable64(Cut(s), Wrap(seen)) <==> Observable(s, Unwrap(s, seen))
    ensures Wrap(Unwrap(s, seen)) == Wrap(seen)
  {
    DistanceSurvivesWrap(s.readIdx, s.lastSeen, s.ds);
    SubInverse(s.lastSeen, Wrap(seen));
  }

  lemma SampleSame(s: State, seen: nat)
    requires RingInv(s) && Ring64(s.ds)
    ensures Apply64(Cut(s), Sample(seen)) == Cut(ApplySample(s, Unwrap(s, seen)))
  {
    SeenSame(s, seen);
    var v := Unwrap(s, seen);
    if s.producer.Looking? && Observable(s, v) {
      PlaceSame(s.ds, s.writeIdx, v, FrameLen(s.producer.frame));
    }
  }

  lemma {:induction false} PlaceSame(ds: nat, w: nat, seen: nat, len: nat)
    requires Ring64(ds) && seen <= w <= seen + ds
    ensures Place64(ds, Wrap(w), Wrap(seen), len) == Place(ds, w, seen, len)
  {
    OffIsMod(TWO64, ds);
    PlacementSurvivesWrap(ds, w, seen, len);
  }

  lemma TakeSpanSame(s: State, seen: nat)
    requires RingInv(s) && Ring64(s.ds)
    ensures Apply64(Cut(s), TakeSpan(seen)) == Cut(ApplyTakeSpan(s, Unwrap(s, seen)))
  {
    SeenSame(s, seen);
    var v := Unwrap(s, seen);
    if s.producer.Resting? && Observable(s, v) {
      SpanSame(s.ds, s.writeIdx, v);
    }
  }

  lemma {:induction false} SpanSame(ds: nat, w: nat, seen: nat)
    requires Ring64(ds) && seen <= w <= seen + ds
    ensures SpanCap64(ds, Wrap(w), Wrap(seen)) == SpanCap(ds, w, seen)
  {
    FreeSurvivesWrap(w, seen, ds);
    CutByte(w, ds);
  }

  /** Position x names the same byte before and after the cut. */
  predicate SameByte(x: nat, ds: nat)
    requires ds > 0
  {
    Off(Wrap(x), ds) == Off(x, ds)
  }

  lemma {:induction false} PutZeroSame(s: State)
    requires WellFormed(s) && s.producer.Marking? && SameByte(s.writeIdx, s.ds)
    requires Off(Wrap(s.writeIdx) + s.producer.done, s.ds) == Off(s.writeIdx + s.producer.done, s.ds)
    ensures Cut(ApplyPutZero(Cut(s))) == Cut(ApplyPutZero(s))
  {
    if s.producer.done >= MarkerLen(s.ds, s.writeIdx) { MarkedSame(s); }
    else { assert MarkerLen(s.ds, Cut(s).writeIdx) == MarkerLen(s.ds, s.writeIdx); }
  }

  lemma {:induction false} MarkedSame(s: State)
    requires WellFormed(s) && s.producer.Marking? && SameByte(s.writeIdx, s.ds)
    requires s.producer.done >= MarkerLen(s.ds, s.writeIdx)
    ensures Cut(ApplyPutZero(Cut(s))) == Cut(ApplyPutZero(s))
  {
    WrapAdd(s.writeIdx, Contig(s.writeIdx, s.ds));
  }

  lemma PutByteSame(s: State)
    requires WellFormed(s) && s.producer.Filling?
    requires Off(Wrap(s.producer.start) + s.producer.done, s.ds) == Off(s.producer.start + s.producer.done, s.ds)
    ensures Cut(ApplyPutByte(Cut(s))) == Cut(ApplyPutByte(s))
  {
  }

  lemma PutHeaderSame(s: State)
    requires WellFormed(s) && s.producer.Heading?
    requires Off(Wrap(s.writeIdx) + s.producer.done, s.ds) == Off(s.writeIdx + s.producer.done, s.ds)
    ensures Cut(ApplyPutHeader(Cut(s))) == Cut(ApplyPutHeader(s))
  {
  }

  lemma FillingPublishSame(s: State)
    requires s.producer.Filling?
    ensures Cut(ApplyPublish(Cut(s))) == Cut(ApplyPublish(s))
  {
    WrapAdd(s.producer.start, FrameLen(s.producer.frame));
  }

  lemma HeadingPublishSame(s: State)
    requires s.producer.Heading?
    ensures Cut(ApplyPublish(Cut(s))) == Cut(ApplyPublish(s))
  {
    WrapAdd(s.writeIdx, FrameLen(s.producer.frame));
  }

  lemma PublishSame(s: State)
    ensures Cut(ApplyPublish(Cut(s))) == Cut(ApplyPublish(s))
  {
    if s.producer.Filling? { FillingPublishSame(s); }
    if s.producer.Heading? { HeadingPublishSame(s); }
  }

  lemma ScribbleSame(s: State, i: nat, b: byte)
    requires WellFormed(s)
    requires Off(Wrap(s.writeIdx) + HEADER + i, s.ds) == Off(s.writeIdx + HEADER + i, s.ds)
    ensures Cut(Apply(Cut(s), Scribble(i, b))) == Cut(Apply(s, Scribble(i, b)))
  {
  }

  lemma CommitSame(s: State, bodyLen: nat, kind: int32)
    requires WellFormed(s) && SameByte(s.writeIdx, s.ds)
    ensures Cut(ApplyCommit(Cut(s), bodyLen, kind)) == Cut(ApplyCommit(s, bodyLen, kind))
  {
    if HEADER + bodyLen <= Contig(s.writeIdx, s.ds) { assert SpanBody(Cut(s), bodyLen) == SpanBody(s, bodyLen); }
  }

  lemma LoadSame(s: State, n: nat)
    requires 0 < s.ds < TWO64 && |s.data| == s.ds
    requires s.known <= n <= |s.sent| ==> s.readIdx <= Stored(s, n) <= s.readIdx + s.ds
    ensures Load64(Cut(s), n) == Cut(ApplyLoad(s, n))
  {
    if s.known <= n <= |s.sent| { DistanceSurvivesWrap(Stored(s, n), s.readIdx, s.ds); }
  }

  lemma OnHeaderSame(s: State, h: Header)
    requires WellFormed(s) && SameByte(s.readIdx, s.ds) && s.consumer.Loaded?
    ensures Cut(OnHeader(Cut(s), h)) == Cut(OnHeader(s, h))
  {
    WrapAdd(s.readIdx, Contig(s.readIdx, s.ds));
  }

  lemma InspectSame(s: State)
    requires WellFormed(s) && SameByte(s.readIdx, s.ds)
    ensures Cut(ApplyInspect(Cut(s))) == Cut(ApplyInspect(s))
  {
    if s.consumer.Loaded? { OnHeaderSame(s, ReadHeader(s.data, Off(s.readIdx, s.ds))); }
  }

  lemma ViewSame(s: State)
    requires WellFormed(s) && SameByte(s.readIdx, s.ds)
    ensures ViewInRange(Cut(s)) <==> ViewInRange(s)
    ensures ViewInRange(s) ==> ViewBytes(Cut(s)) == ViewBytes(s)
  {
  }

  lemma CopyOutSame(s: State)
    requires WellFormed(s) && SameByte(s.readIdx, s.ds)
    ensures Cut(Apply(Cut(s), CopyOut)) == Cut(Apply(s, CopyOut))
  {
    ViewSame(s);
  }

  lemma ReleaseSame(s: State)
    requires WellFormed(s) && SameByte(s.readIdx, s.ds)
    ensures Cut(ApplyRelease(Cut(s))) == Cut(ApplyRelease(s))
  {
    ViewSame(s);
    if ViewInRange(s) { WrapAdd(s.readIdx, s.consumer.len); }
  }

  lemma LostPinSame(s: State)
    ensures LostPin(Cut(s)) <==> LostPin(s)
  {
    if s.consumer.Pinned? { WrapAdd(s.readIdx, s.consumer.len); }
  }

  lemma ReadSame(s: State, a: Action)
    requires Inv(s) && Ring64(s.ds) && !LostPin(s) && OfConsumer(a)
    ensures Apply64(Cut(s), a) == Cut(Apply(s, a))
  {
    OffSame(s.readIdx, 0, s.ds);
    LostPinSame(s);
    match a
    case Release => ReleaseSame(s);
    case Load(n) =>
      if s.known <= n <= |s.sent| { LoadValue(s, n); }
      LoadSame(s, n);
    case Inspect => InspectSame(s);
    case CopyOut => CopyOutSame(s);
    case _ =>
  }

  lemma PutZeroCut(s: State)
    requires WellFormed(s) && Ring64(s.ds)
    ensures Cut(ApplyPutZero(Cut(s))) == Cut(ApplyPutZero(s))
  {
    if s.producer.Marking? {
      OffSame(s.writeIdx, s.producer.done, s.ds);
      PutZeroSame(s);
    }
  }

  lemma PutByteCut(s: State)
    requires WellFormed(s) && Ring64(s.ds)
    ensures Cut(ApplyPutByte(Cut(s))) == Cut(ApplyPutByte(s))
  {
    if s.producer.Filling? {
      OffSame(s.producer.start, s.producer.done, s.ds);
      PutByteSame(s);
    }
  }

  lemma PutHeaderCut(s: State)
    requires WellFormed(s) && Ring64(s.ds)
    ensures Cut(ApplyPutHeader(Cut(s))) == Cut(ApplyPutHeader(s))
  {
    if s.producer.Heading? {
      OffSame(s.writeIdx, s.producer.done, s.ds);
      PutHeaderSame(s);
    }
  }

  lemma StoreSame(s: State, a: Action)
    requires WellFormed(s) && Ring64(s.ds) && StoresByte(a)
    ensures Cut(Apply(Cut(s), a)) == Cut(Apply(s, a))
  {
    match a
    case PutZero => PutZeroCut(s);
    case PutByte => PutByteCut(s);
    case PutHeader => PutHeaderCut(s);
  }

  lemma WriteSame(s: State, a: Action)
    requires WellFormed(s) && Ring64(s.ds) && !OfConsumer(a) && !a.Sample? && !a.TakeSpan?
    ensures Cut(Apply(Cut(s), a)) == Cut(Apply(s, a))
  {
    if StoresByte(a) { StoreSame(s, a); }
    else if a.Publish? { PublishSame(s); }
    else if a.Commit? || a.Scribble? { InSpanSame(s, a); }
  }

  lemma InSpanSame(s: State, a: Action)
    requires WellFormed(s) && Ring64(s.ds) && (a.Commit? || a.Scribble?)
    ensures Cut(Apply(Cut(s), a)) == Cut(Apply(s, a))
  {
    if a.Commit? {
      OffSame(s.writeIdx, 0, s.ds);
      CommitSame(s, a.bodyLen, a.kind);
    } else {
      OffSame(s.writeIdx, HEADER + a.i, s.ds);
      ScribbleSame(s, a.i, a.b);
    }
  }

  /** One 64-bit step is one unbounded step, as long as no pinned end reads as "no pin". */
  lemma StepSame(s: State, a: Action)
    requires Inv(s) && Ring64(s.ds) && !LostPin(s)
    ensures Apply64(Cut(s), a) == Cut(Apply(s, Lift(s, a)))
  {
    if OfConsumer(a) { ReadSame(s, a); }
    else if a.Sample? { SampleSame(s, a.seen); }
    else if a.TakeSpan? { TakeSpanSame(s, a.spanSeen); }
    else { WriteSame(s, a); }
  }

  // ----- whole runs -----

  /** No state of the run has a pinned end that reads as "no pin". */
  ghost predicate PinsHold(s: State, acts: seq<Action>)
    requires WellFormed64(s)
    decreases |acts|
  {
    !LostPin(s) && (acts == [] || PinsHold(Apply64(s, acts[0]), acts[1..]))
  }

  /** Every 64-bit run is an unbounded run with its indices cut. */
  lemma {:induction false} RunSame(s: State, acts: seq<Action>) returns (lifted: seq<Action>)
    requires Inv(s) && Ring64(s.ds) && PinsHold(Cut(s), acts)
    ensures |lifted| == |acts| && Run64(Cut(s), acts) == Cut(Run(s, lifted))
    decreases |acts|
  {
    lifted := [];
    if acts != [] {
      var a := Lift(s, acts[0]);
      LostPinSame(s);
      StepSame(s, acts[0]);
      StepKeeps(s, a);
      var rest := RunSame(Apply(s, a), acts[1..]);
      lifted := [a] + rest;
      assert lifted[1..] == rest;
    }
  }

  /** A pinned view after the cut shows the oldest frame. */
  lemma CutView(s: State)
    requires RingInv(s) && Ring64(s.ds) && s.consumer.Pinned?
    ensures ViewInRange(Cut(s)) && |s.received| < |s.sent|
    ensures Frame(s.consumer.kind, ViewBytes(Cut(s))) == s.sent[|s.received|]
  {
    ViewShowsHead(s);
    OffSame(s.readIdx, 0, s.ds);
  }

  /** Over every 64-bit run the frames received are a prefix of those sent and the used space is at most the ring. */
  lemma FifoDelivery64(data: seq<byte>, acts: seq<Action>)
    requires Ring64(|data|) && PinsHold(Init(data), acts)
    ensures var s := Run64(Init(data), acts);
            && s.received <= s.sent
            && Sub64(s.writeIdx, s.readIdx) <= s.ds
            && !s.consumer.Failed?
            && (s.consumer.Pinned? ==>
                  && ViewInRange(s) && |s.received| < |s.sent|
                  && Frame(s.consumer.kind, ViewBytes(s)) == s.sent[|s.received|])
  {
    var lifted := RunSame(Init(data), acts);
    var s := Run(Init(data), lifted);
    RunKeeps(Init(data), lifted);
    DistanceSurvivesWrap(s.writeIdx, s.readIdx, s.ds);
    if s.consumer.Pinned? { CutView(s); }
  }

  // ----- the pin that reads as "no pin" -----

  /** The reader holds a view of f whose end is lost, and the ring still shows f at read_idx. */
  ghost predicate Replaying(s: State, f: Frame) {
    && WellFormed64(s) && LostPin(s) && s.known <= |s.sent| && Wrap(Stored(s, s.known)) != s.readIdx
    && s.consumer == Pinned(FrameLen(f), f.kind, None)
    && ReadHeader(s.data, Off(s.readIdx, s.ds)) == Whole(FrameLen(f), f.kind)
    && ViewInRange(s) && ViewBytes(s) == f.body
  }

  lemma ReplayRelease(s: State, f: Frame)
    requires Replaying(s, f)
    ensures Apply64(s, Release) == s.(received := s.received + [f], consumer := Ready)
  {
  }

  /** A read call from there pins f again. */
  lemma ReplayRead(s: State, f: Frame)
    requires Replaying(s, f)
    ensures Apply64(s.(consumer := Ready), BeginRead) == s.(consumer := Looping(0))
    ensures Apply64(s.(consumer := Looping(0)), Load(s.known)) == s.(consumer := Loaded(0))
    ensures Apply64(s.(consumer := Loaded(0)), Inspect) == s
  {
    ReplayPin(s, f);
    ReplayLoad(s, f);
  }

  lemma ReplayLoad(s: State, f: Frame)
    requires Replaying(s, f)
    ensures Apply64(s.(consumer := Looping(0)), Load(s.known)) == s.(consumer := Loaded(0))
  {
  }

  lemma ReplayPin(s: State, f: Frame)
    requires Replaying(s, f)
    ensures Apply64(s.(consumer := Loaded(0)), Inspect) == s
  {
    assert ApplyInspect(s.(consumer := Loaded(0))) == s;
  }

  /** n times a release and a read, loading the write_idx value of the k-th publication. */
  function Rounds(n: nat, k: nat): seq<Action> {
    if n == 0 then [] else [Release] + ([BeginRead] + ([Load(k)] + ([Inspect] + Rounds(n - 1, k))))
  }

  lemma {:induction false} RoundsAreReads(n: nat, k: nat)
    ensures AllConsumer(Rounds(n, k))
    decreases n
  {
    if n > 0 { RoundsAreReads(n - 1, k); }
  }

  function Copies(f: Frame, n: nat): (r: seq<Frame>)
    ensures |r| == n
  {
    if n == 0 then [] else [f] + Copies(f, n - 1)
  }

  lemma {:induction false} RunConcat64(s: State, a: seq<Action>, b: seq<Action>)
    requires WellFormed64(s)
    ensures Run64(s, a + b) == Run64(Run64(s, a), b)
    decreases |a|
  {
    if a == [] {
      assert a + b == b;
    } else {
      assert (a + b)[0] == a[0] && (a + b)[1..] == a[1..] + b;
      RunConcat64(Apply64(s, a[0]), a[1..], b);
    }
  }

  lemma Prepend64(s: State, a: Action, rest: seq<Action>)
    requires WellFormed64(s)
    ensures Run64(s, [a] + rest) == Run64(Apply64(s, a), rest)
  {
    assert ([a] + rest)[1..] == rest;
  }

  /** The first read of the rounds, one action at a time. */
  lemma RoundSteps(s: State, s1: State, s2: State, s3: State, s4: State, n: nat, k: nat)
    requires n > 0 && WellFormed64(s) && Apply64(s, Release) == s1 && Apply64(s1, BeginRead) == s2
    requires Apply64(s2, Load(k)) == s3 && Apply64(s3, Inspect) == s4
    ensures Run64(s, Rounds(n, k)) == Run64(s4, Rounds(n - 1, k))
  {
    var r := Rounds(n - 1, k);
    Prepend64(s3, Inspect, r);
    Prepend64(s2, Load(k), [Inspect] + r);
    Prepend64(s1, BeginRead, [Load(k)] + ([Inspect] + r));
    Prepend64(s, Release, [BeginRead] + ([Load(k)] + ([Inspect] + r)));
  }

  lemma ReplayOnce(s: State, f: Frame, n: nat)
    requires Replaying(s, f) && n > 0
    ensures var t := s.(received := s.received + [f]);
            Replaying(t, f) && Run64(s, Rounds(n, s.known)) == Run64(t, Rounds(n - 1, s.known))
  {
    var t := s.(received := s.received + [f]);
    ReplayRelease(s, f);
    ReplayRead(t, f);
    RoundSteps(s, t.(consumer := Ready), t.(consumer := Looping(0)), t.(consumer := Loaded(0)), t, n, s.known);
  }

  lemma CopiesStep(r: seq<Frame>, f: Frame, n: nat)
    ensures (n == 0 ==> r + Copies(f, n) == r) && (n > 0 ==> r + Copies(f, n) == (r + [f]) + Copies(f, n - 1))
  {
  }

  /** Reading on delivers f once more per read, without end and without moving. */
  lemma {:induction false} ReplayForever(s: State, f: Frame, n: nat)
    requires Replaying(s, f)
    ensures Run64(s, Rounds(n, s.known)) == s.(received := s.received + Copies(f, n))
    decreases n
  {
    CopiesStep(s.received, f, n);
    if n > 0 {
      ReplayOnce(s, f, n);
      ReplayForever(s.(received := s.received + [f]), f, n - 1);
    }
  }

  /** The state with nothing copied out of the pinned view. */
  function Uncopied(s: State): State
    requires s.consumer.Pinned?
  {
    s.(consumer := Pinned(s.consumer.len, s.consumer.kind, None))
  }

  /** What a lost pin leaves for the next read: the header of the oldest frame still stands at read_idx. */
  lemma CutHeader(s: State)
    requires RingInv(s) && Ring64(s.ds) && s.consumer.Pinned?
    ensures var f := s.sent[|s.received|];
            && s.consumer.len == FrameLen(f) && s.consumer.kind == f.kind
            && ReadHeader(s.data, Off(Wrap(s.readIdx), s.ds)) == Whole(FrameLen(f), f.kind)
  {
    ReadQueued(s.data, s.ds, s.readIdx, s.writeIdx, Pending(s));
    CutByte(s.readIdx, s.ds);
  }

  /** And the load shows that the ring is not empty. */
  lemma CutLoad(s: State)
    requires Inv(s) && s.ds < TWO64 && s.consumer.Pinned?
    ensures s.known <= |s.sent| && Wrap(Stored(s, s.known)) != Wrap(s.readIdx)
  {
    LoadValue(s, s.known);
    DistanceSurvivesWrap(Stored(s, s.known), s.readIdx, s.ds);
  }

  /** A pin lost in an unbounded run's image is such a view of the oldest frame. */
  lemma LostPinReplays(s: State)
    requires Inv(s) && Ring64(s.ds) && LostPin(s)
    ensures Replaying(Cut(Uncopied(s)), s.sent[|s.received|])
  {
    CutHeader(s);
    CutLoad(s);
    CutView(s);
    LostPinSame(s);
    ReplayingFrom(s, s.sent[|s.received|]);
  }

  lemma ReplayingFrom(s: State, f: Frame)
    requires WellFormed(s) && s.ds < TWO64 && s.consumer.Pinned? && LostPin(Cut(s)) && s.known <= |s.sent|
    requires Wrap(Stored(s, s.known)) != Wrap(s.readIdx) && s.consumer.len == FrameLen(f) && s.consumer.kind == f.kind
    requires ReadHeader(s.data, Off(Wrap(s.readIdx), s.ds)) == Whole(FrameLen(f), f.kind)
    requires ViewInRange(Cut(s)) && ViewBytes(Cut(s)) == f.body
    ensures Replaying(Cut(Uncopied(s)), f)
  {
  }

  /** Whether the view was copied out or not, the release that follows is the same. */
  lemma CopyIsReleased(s: State)
    requires WellFormed64(s) && ViewInRange(s)
    requires s.consumer.copy.Some? ==> s.consumer.copy.value == ViewBytes(s)
    ensures Apply64(s, Release) == Apply64(Uncopied(s), Release)
  {
    assert ViewBytes(Uncopied(s)) == ViewBytes(s) && LostPin(Uncopied(s)) == LostPin(s);
    assert ApplyRelease(Uncopied(s)) == ApplyRelease(s);
  }

  lemma CutReleased(s: State)
    requires RingInv(s) && Ring64(s.ds) && s.consumer.Pinned?
    ensures Apply64(Cut(s), Release) == Apply64(Cut(Uncopied(s)), Release)
  {
    CutView(s);
    CopyIsReleased(Cut(s));
  }

  /** Reading on from a lost pin receives any number of frames more than were sent. */
  lemma LostPinDuplicates(s: State, n: nat) returns (acts: seq<Action>)
    requires Inv(s) && Ring64(s.ds) && LostPin(s)
    ensures AllConsumer(acts)
    ensures var t := Run64(Cut(s), acts); |t.received| >= |t.sent| + n
  {
    var u := Cut(Uncopied(s));
    var k := |s.sent| + n + 1;
    LostPinReplays(s);
    CutReleased(s);
    ReplayForever(u, s.sent[|s.received|], k);
    acts := Rounds(k, s.known);
    RoundsAreReads(k, s.known);
    SameFirstStep(Cut(s), u, acts);
  }

  lemma SameFirstStep(s: State, u: State, acts: seq<Action>)
    requires WellFormed64(s) && WellFormed64(u) && acts != [] && Apply64(s, acts[0]) == Apply64(u, acts[0])
    ensures Run64(s, acts) == Run64(u, acts)
  {
  }

  /** A run that has just lost its first pin: delivery holds up to here, and from here the reader alone breaks it. */
  lemma FirstLostPin(data: seq<byte>, acts: seq<Action>, a: Action, n: nat) returns (more: seq<Action>)
    requires Ring64(|data|) && PinsHold(Init(data), acts) && LostPin(Apply64(Run64(Init(data), acts), a))
    ensures AllConsumer(more)
    ensures var s := Apply64(Run64(Init(data), acts), a);
            s.received <= s.sent && |Run64(s, more).received| >= |Run64(s, more).sent| + n
  {
    var t := Unbounded(data, acts, a);
    LostPinSame(t);
    more := LostPinDuplicates(t, n);
  }

  /** The unbounded state behind the one a run without lost pins leads to with one more step. */
  lemma Unbounded(data: seq<byte>, acts: seq<Action>, a: Action) returns (t: State)
    requires Ring64(|data|) && PinsHold(Init(data), acts)
    ensures Inv(t) && Ring64(t.ds) && Apply64(Run64(Init(data), acts), a) == Cut(t)
  {
    var lifted := RunSame(Init(data), acts);
    var s := Run(Init(data), lifted);
    RunKeeps(Init(data), lifted);
    PinsHoldAtEnd(Init(data), acts);
    LostPinSame(s);
    StepSame(s, a);
    StepKeeps(s, Lift(s, a));
    ApplyWellFormed(s, Lift(s, a));
    t := Apply(s, Lift(s, a));
  }

  lemma {:induction false} PinsHoldAtEnd(s: State, acts: seq<Action>)
    requires WellFormed64(s) && PinsHold(s, acts)
    ensures !LostPin(Run64(s, acts))
    decreases |acts|
  {
    if acts != [] { PinsHoldAtEnd(Apply64(s, acts[0]), acts[1..]); }
  }

  // ----- such a pin is reachable on every ring of the size -----

  lemma WriteStepGrows(s: State, a: Action)
    requires WellFormed(s) && (s.producer.Filling? ==> s.producer.start >= s.writeIdx)
    ensures Apply(s, a).writeIdx >= s.writeIdx
  {
  }

  lemma {:induction false} WriteIdxGrows(s: State, acts: seq<Action>)
    requires Inv(s)
    ensures Run(s, acts).writeIdx >= s.writeIdx
    decreases |acts|
  {
    if acts != [] {
      StepKeeps(s, acts[0]);
      WriteStepGrows(s, acts[0]);
      WriteIdxGrows(Apply(s, acts[0]), acts[1..]);
    }
  }

  lemma PinWithinWritten(s: State)
    requires RingInv(s) && s.writeIdx < TWO64
    ensures !LostPin(s)
  {
    if s.consumer.Pinned? {
      QueuedOrder(s.data, s.ds, Next(s.ds, s.readIdx, Pending(s)[0]), s.writeIdx, Pending(s)[1..]);
    }
  }

  /** An observable load is the 64-bit load of its low bits; any other load does nothing. */
  lemma LiftSame(s: State, a: Action)
    requires RingInv(s) && s.ds < TWO64
    ensures Lift(s, a) == a || Apply(s, a) == s
  {
    match a
    case Sample(seen) => if Observable(s, seen) { DistanceSurvivesWrap(seen, s.lastSeen, s.ds); }
    case TakeSpan(seen) => if Observable(s, seen) { DistanceSurvivesWrap(seen, s.lastSeen, s.ds); }
    case _ =>
  }

  lemma FoldStep(s: State, a: Action)
    requires Inv(s) && Ring64(s.ds) && (s.writeIdx < TWO64 || s.consumer.Ready?)
    ensures Inv(Apply(s, a)) && (Apply64(Cut(s), a) == Cut(Apply(s, a)) || Apply(s, a) == s)
  {
    if s.writeIdx < TWO64 { PinWithinWritten(s); }
    StepSame(s, a);
    LiftSame(s, a);
    StepKeeps(s, a);
  }

  lemma ProducerLeavesConsumer(s: State, a: Action)
    requires WellFormed(s) && !OfConsumer(a)
    ensures Apply(s, a).consumer == s.consumer
  {
  }

  /** Neither side's pin can be lost along the run: it stays below 2^64, or the reader rests. */
  ghost predicate Safe(s: State, acts: seq<Action>)
    requires WellFormed(s)
  {
    Run(s, acts).writeIdx < TWO64 || (AllProducer(acts) && s.consumer.Ready?)
  }

  lemma SafeStep(s: State, acts: seq<Action>)
    requires Inv(s) && acts != [] && Safe(s, acts)
    ensures s.writeIdx < TWO64 || s.consumer.Ready?
    ensures WellFormed(Apply(s, acts[0])) && Safe(Apply(s, acts[0]), acts[1..])
  {
    WriteIdxGrows(s, acts);
    ApplyWellFormed(s, acts[0]);
    if AllProducer(acts) { ProducerLeavesConsumer(s, acts[0]); }
  }

  lemma SafeFold(s: State, acts: seq<Action>)
    requires Inv(s) && Ring64(s.ds) && acts != [] && Safe(s, acts)
    ensures var t := Apply(s, acts[0]);
            && Inv(t) && Ring64(t.ds) && Safe(t, acts[1..]) && (Apply64(Cut(s), acts[0]) == Cut(t) || t == s)
  {
    SafeStep(s, acts);
    ApplyWellFormed(s, acts[0]);
    FoldStep(s, acts[0]);
  }

  /** An unbounded run that never loses a pin is a 64-bit run. */
  lemma {:induction false} Folded(s: State, acts: seq<Action>) returns (folded: seq<Action>)
    requires Inv(s) && Ring64(s.ds) && Safe(s, acts)
    ensures Run64(Cut(s), folded) == Cut(Run(s, acts))
    decreases |acts|
  {
    folded := [];
    if acts != [] {
      SafeFold(s, acts);
      var t := Apply(s, acts[0]);
      folded := Folded(t, acts[1..]);
      if t != s {
        Prepend64(Cut(s), acts[0], folded);
        folded := [acts[0]] + folded;
      }
    }
  }

  /** Empty, idle, and back at the start of the data area. */
  ghost predicate Drained(s: State) {
    Inv(s) && s.producer.Resting? && s.consumer.Ready? && s.received == s.sent && Off(s.writeIdx, s.ds) == 0
  }

  lemma {:induction false} NextLap(ds: nat, r: nat, f: Frame)
    requires ds > 0 && Off(r, ds) == 0 && FrameLen(f) == ds
    ensures Next(ds, r, f) == r + ds && Off(r + ds, ds) == 0 && Start(ds, r, FrameLen(f)) == r
    ensures Accepts(Place(ds, r, r, FrameLen(f)))
  {
  }

  lemma {:induction false} LapLeft(x: nat, ds: nat)
    requires ds > 0 && x > 0 && Off(x, ds) == 0
    ensures x >= ds && Off(x - ds, ds) == 0
  {
  }

  /** One frame as long as the ring, written and read. */
  lemma WholeLap(s: State, f: Frame) returns (acts: seq<Action>)
    requires Drained(s) && Sendable(f) && FrameLen(f) == s.ds
    ensures Drained(Run(s, acts)) && Run(s, acts).writeIdx == s.writeIdx + s.ds
  {
    NextLap(s.ds, s.writeIdx, f);
    acts := WriteAndRead(s, f);
  }

  /** One such frame after the other, up to a position a whole number of laps away. */
  lemma {:induction false} Laps(s: State, f: Frame, target: nat) returns (acts: seq<Action>)
    requires Drained(s) && Sendable(f) && FrameLen(f) == s.ds
    requires s.writeIdx <= target && Off(target - s.writeIdx, s.ds) == 0
    ensures Drained(Run(s, acts)) && Run(s, acts).writeIdx == target
    decreases target - s.writeIdx
  {
    acts := [];
    if s.writeIdx < target {
      LapLeft(target - s.writeIdx, s.ds);
      acts := WholeLap(s, f);
      var t := Run(s, acts);
      assert target - t.writeIdx == target - s.writeIdx - s.ds;
      var rest := Laps(t, f, target);
      RunConcat(s, acts, rest);
      acts := acts + rest;
    }
  }

  /** A read call up to the pin. */
  function Read(k: nat): seq<Action> { [BeginRead] + ([Load(k)] + ([Inspect] + [])) }

  lemma ReadSteps64(s: State, k: nat)
    requires WellFormed64(s)
    ensures Run64(s, Read(k)) == Apply64(Apply64(Apply64(s, BeginRead), Load(k)), Inspect)
  {
    var s1 := Apply64(s, BeginRead);
    var s2 := Apply64(s1, Load(k));
    Prepend64(s2, Inspect, []);
    Prepend64(s1, Load(k), [Inspect] + []);
    Prepend64(s, BeginRead, [Load(k)] + ([Inspect] + []));
  }

  lemma PinHead64(s: State)
    requires Inv(s) && Ring64(s.ds) && s.consumer.Ready? && Pending(s) != []
    requires Start(s.ds, s.readIdx, FrameLen(Pending(s)[0])) == s.readIdx
    ensures var f := Pending(s)[0];
            var t := s.(known := |s.sent|, consumer := Pinned(FrameLen(f), f.kind, None));
            Inv(t) && Run64(Cut(s), Read(|s.sent|)) == Cut(t)
  {
    FirstRead64(s);
    LoadRead64(s.(consumer := Looping(0)));
    PinRead64(s.(known := |s.sent|, consumer := Loaded(0)));
    ReadSteps64(Cut(s), |s.sent|);
  }

  lemma FirstRead64(s: State)
    requires Inv(s) && Ring64(s.ds) && s.consumer.Ready?
    ensures var t := s.(consumer := Looping(0)); Inv(t) && Apply64(Cut(s), BeginRead) == Cut(t)
  {
    BeginReadKeeps(s);
  }

  lemma LoadRead64(s: State)
    requires Inv(s) && Ring64(s.ds) && s.consumer.Looping? && |s.received| < |s.sent|
    ensures var t := s.(known := |s.sent|, consumer := Loaded(s.consumer.skips));
            Inv(t) && Apply64(Cut(s), Load(|s.sent|)) == Cut(t)
  {
    FreshLoad(s);
    ReadSame(s, Load(|s.sent|));
  }

  lemma PinRead64(s: State)
    requires Inv(s) && Ring64(s.ds) && s.consumer.Loaded? && Start(s.ds, s.readIdx, FrameLen(Pending(s)[0])) == s.readIdx
    ensures var f := Pending(s)[0];
            var t := s.(consumer := Pinned(FrameLen(f), f.kind, None));
            Inv(t) && Apply64(Cut(s), Inspect) == Cut(t)
  {
    PinOutcome(s);
    HistoryInspect(s);
    ReadSame(s, Inspect);
  }

  /** All laps but the last below 2^64. */
  lemma AllButOneLap(data: seq<byte>, f: Frame) returns (acts: seq<Action>, s: State)
    requires Ring64(|data|) && Sendable(f) && FrameLen(f) == |data|
    ensures Drained(s) && s.ds == |data| && s.writeIdx == TWO64 - s.ds
    ensures Run64(Init(data), acts) == Cut(s)
  {
    var turns := Laps(Init(data), f, TWO64 - |data|);
    s := Run(Init(data), turns);
    acts := Folded(Init(data), turns);
  }

  /** Reading a frame that fills the last lap loses the pin. */
  lemma PinLap(s: State, f: Frame)
    requires Inv(s) && Ring64(s.ds) && s.consumer.Ready? && FrameLen(f) == s.ds && Pending(s) == [f]
    requires s.readIdx == TWO64 - s.ds && Off(s.readIdx, s.ds) == 0
    ensures var t := s.(known := |s.sent|, consumer := Pinned(FrameLen(f), f.kind, None));
            Inv(t) && LostPin(t) && Run64(Cut(s), Read(|s.sent|)) == Cut(t)
  {
    PinHead64(s);
  }

  /** The last lap: its frame is written and pinned, and the pin is lost. */
  lemma LastLap(t: State, f: Frame) returns (acts: seq<Action>, s: State)
    requires Drained(t) && Ring64(t.ds) && t.writeIdx == TWO64 - t.ds
    requires Sendable(f) && FrameLen(f) == t.ds
    ensures Inv(s) && s.ds == t.ds && Run64(Cut(t), acts) == Cut(s)
    ensures LostPin(s) && s.consumer.copy.None? && |s.sent| == |s.received| + 1
  {
    NextLap(t.ds, t.writeIdx, f);
    DrainedEnds(t);
    var write := WriteCall(t, f);
    s := Run(t, write);
    acts := Folded(t, write);
    PinLap(s, f);
    RunConcat64(Cut(t), acts, Read(|s.sent|));
    acts := acts + Read(|s.sent|);
    s := s.(known := |s.sent|, consumer := Pinned(FrameLen(f), f.kind, None));
  }

  /**
   The sentinel is reachable and breaks delivery: on every ring that can hold a frame as long as
   itself some 64-bit run receives any number of frames more than were sent.
   */
  lemma SentinelDuplicates(data: seq<byte>, n: nat) returns (acts: seq<Action>)
    requires Ring64(|data|) && HEADER <= |data| < TWO32
    ensures var s := Run64(Init(data), acts); |s.received| >= |s.sent| + n
  {
    var f := Frame(0, seq(|data| - HEADER, _ => 0));
    var laps, t := AllButOneLap(data, f);
    var last, s := LastLap(t, f);
    var more := LostPinDuplicates(s, n);
    RunConcat64(Init(data), laps, last);
    RunConcat64(Init(data), laps + last, more);
    acts := laps + last + more;
  }
}
