/**
 Neither side of the ring waits for the other beyond what it needs: a write that has found room
 finishes by itself, and a reader alone receives everything published.
 */
module RingProgress {
  import opened Arith
  import opened Bytes
  import opened RingLayout
  import opened RingProtocol

  lemma {:induction false} RunConcat(s: State, a: seq<Action>, b: seq<Action>)
    requires WellFormed(s)
    ensures Run(s, a + b) == Run(Run(s, a), b)
    decreases |a|
  {
    if a == [] {
      assert a + b == b;
    } else {
      ApplyWellFormed(s, a[0]);
      assert (a + b)[0] == a[0] && (a + b)[1..] == a[1..] + b;
      RunConcat(Apply(s, a[0]), a[1..], b);
    }
  }

  lemma OneStep(s: State, a: Action)
    requires WellFormed(s)
    ensures Run(s, [a]) == Apply(s, a)
  {
    ApplyWellFormed(s, a);
    assert [a][1..] == [];
  }

  lemma TwoSteps(s: State, a: Action, b: Action)
    requires WellFormed(s)
    ensures WellFormed(Apply(s, a)) && Run(s, [a, b]) == Apply(Apply(s, a), b)
  {
    ApplyWellFormed(s, a);
    OneStep(Apply(s, a), b);
    assert [a, b][1..] == [b];
  }

  /** n times the same action. */
  function Times(a: Action, n: nat): seq<Action> { if n == 0 then [] else [a] + Times(a, n - 1) }

  predicate AllProducer(acts: seq<Action>) { forall i :: 0 <= i < |acts| ==> !OfConsumer(acts[i]) }

  predicate AllConsumer(acts: seq<Action>) { forall i :: 0 <= i < |acts| ==> OfConsumer(acts[i]) }

  lemma {:induction false} TimesOnly(a: Action, n: nat)
    ensures forall i :: 0 <= i < |Times(a, n)| ==> Times(a, n)[i] == a
    decreases n
  {
    if n > 0 { TimesOnly(a, n - 1); }
  }

  // ----- the producer alone -----

  /** Storing the remaining bytes of the image. */
  lemma {:induction false} FillRun(s: State, n: nat)
    requires WellFormed(s) && s.producer.Filling? && s.producer.done + n == |s.producer.image|
    ensures var t := Run(s, Times(PutByte, n));
            && t == s.(data := t.data, producer := t.producer)
            && t.producer == Filling(s.producer.frame, s.producer.image, s.producer.start, |s.producer.image|)
    decreases n
  {
    if n > 0 {
      ApplyWellFormed(s, PutByte);
      FillRun(Apply(s, PutByte), n - 1);
      assert Times(PutByte, n)[1..] == Times(PutByte, n - 1);
    }
  }

  /** Storing the remaining bytes of the marker, then moving on to the frame, or back to the space check. */
  lemma {:induction false} MarkRun(s: State, n: nat)
    requires WellFormed(s) && s.producer.Marking?
    requires s.producer.done + n == MarkerLen(s.ds, s.writeIdx)
    ensures var t := Run(s, Times(PutZero, n + 1));
            var Marking(f, img, room, _) := s.producer;
            && t == s.(data := t.data, producer := t.producer)
            && t.producer == if room then Filling(f, img, s.writeIdx + Contig(s.writeIdx, s.ds), 0) else Looking(f, img)
    decreases n
  {
    ApplyWellFormed(s, PutZero);
    assert Times(PutZero, n + 1)[1..] == Times(PutZero, n);
    if n > 0 {
      MarkRun(Apply(s, PutZero), n - 1);
    } else {
      assert Run(Apply(s, PutZero), []) == Apply(s, PutZero);
    }
  }

  /** Storing the remaining bytes of a header. */
  lemma {:induction false} HeadRun(s: State, n: nat)
    requires WellFormed(s) && s.producer.Heading? && |s.producer.image| >= HEADER && s.producer.done + n == HEADER
    ensures var t := Run(s, Times(PutHeader, n));
            && t == s.(data := t.data, producer := t.producer)
            && t.producer == Heading(s.producer.frame, s.producer.image, HEADER)
    decreases n
  {
    if n > 0 {
      ApplyWellFormed(s, PutHeader);
      HeadRun(Apply(s, PutHeader), n - 1);
      assert Times(PutHeader, n)[1..] == Times(PutHeader, n - 1);
    }
  }

  /** From a placed frame to its publication. */
  lemma FinishFilling(s: State) returns (acts: seq<Action>)
    requires WellFormed(s) && s.producer.Filling? && s.producer.done <= |s.producer.image|
    ensures AllProducer(acts)
    ensures var t := Run(s, acts);
            t == s.(data := t.data, producer := Resting, writeIdx := s.producer.start + FrameLen(s.producer.frame),
                    sent := s.sent + [s.producer.frame])
  {
    var n := |s.producer.image| - s.producer.done;
    FillRun(s, n);
    TimesOnly(PutByte, n);
    var t := Run(s, Times(PutByte, n));
    RunConcat(s, Times(PutByte, n), [Publish]);
    OneStep(t, Publish);
    acts := Times(PutByte, n) + [Publish];
  }

  /** From a commit to the publication of its frame. */
  lemma FinishHeading(s: State) returns (acts: seq<Action>)
    requires WellFormed(s) && s.producer.Heading? && |s.producer.image| >= HEADER && s.producer.done <= HEADER
    ensures AllProducer(acts)
    ensures var t := Run(s, acts);
            t == s.(data := t.data, producer := Resting, writeIdx := s.writeIdx + FrameLen(s.producer.frame),
                    sent := s.sent + [s.producer.frame])
  {
    var n := HEADER - s.producer.done;
    HeadRun(s, n);
    TimesOnly(PutHeader, n);
    var t := Run(s, Times(PutHeader, n));
    RunConcat(s, Times(PutHeader, n), [Publish]);
    OneStep(t, Publish);
    acts := Times(PutHeader, n) + [Publish];
  }

  /** A load that finds room leads to the marker or straight to the frame. */
  lemma Placing(s: State, seen: nat)
    requires WellFormed(s) && s.producer.Looking? && Observable(s, seen)
    requires Accepts(Place(s.ds, s.writeIdx, seen, FrameLen(s.producer.frame)))
    ensures var Looking(f, img) := s.producer;
            var t, start := ApplySample(s, seen), Start(s.ds, s.writeIdx, FrameLen(f));
            if start == s.writeIdx then t == s.(lastSeen := seen, producer := Filling(f, img, start, 0))
            else start == s.writeIdx + Contig(s.writeIdx, s.ds) && t == s.(lastSeen := seen, producer := Marking(f, img, true, 0))
  {
    PlaceRoom(s.ds, s.writeIdx, seen, FrameLen(s.producer.frame));
  }

  /** From such a load to the first byte of the frame. */
  lemma ToFilling(s: State, seen: nat) returns (acts: seq<Action>)
    requires WellFormed(s) && s.producer.Looking? && Observable(s, seen)
    requires Accepts(Place(s.ds, s.writeIdx, seen, FrameLen(s.producer.frame)))
    ensures AllProducer(acts)
    ensures var Looking(f, img) := s.producer;
            var t := Run(s, acts);
            t == s.(data := t.data, lastSeen := seen, producer := Filling(f, img, Start(s.ds, s.writeIdx, FrameLen(f)), 0))
  {
    var s1 := ApplySample(s, seen);
    Placing(s, seen);
    OneStep(s, Sample(seen));
    acts := [Sample(seen)];
    if s1.producer.Marking? {
      var n := MarkerLen(s1.ds, s1.writeIdx);
      MarkRun(s1, n);
      TimesOnly(PutZero, n + 1);
      RunConcat(s, acts, Times(PutZero, n + 1));
      acts := acts + Times(PutZero, n + 1);
    }
  }

  /** A write whose space check succeeds is published by the producer's own steps, whatever the consumer is doing. */
  lemma WriteCompletes(s: State, seen: nat) returns (acts: seq<Action>)
    requires WellFormed(s) && s.producer.Looking? && Observable(s, seen)
    requires Accepts(Place(s.ds, s.writeIdx, seen, FrameLen(s.producer.frame)))
    ensures AllProducer(acts)
    ensures var t := Run(s, acts);
            && t.sent == s.sent + [s.producer.frame] && t.writeIdx == Next(s.ds, s.writeIdx, s.producer.frame)
            && t.producer == Resting && t.consumer == s.consumer && t.readIdx == s.readIdx && t.received == s.received
  {
    acts := ToFilling(s, seen);
    var rest := FinishFilling(Run(s, acts));
    RunConcat(s, acts, rest);
    acts := acts + rest;
  }

  /** A write whose space check fails marks an unusable tail if it must and looks again, with nothing published. */
  lemma RefusedLooksAgain(s: State, seen: nat) returns (acts: seq<Action>)
    requires WellFormed(s) && s.producer.Looking? && Observable(s, seen)
    requires !Accepts(Place(s.ds, s.writeIdx, seen, FrameLen(s.producer.frame)))
    ensures AllProducer(acts) && acts != [] && acts[0] == Sample(seen)
    ensures var t := Run(s, acts); t == s.(data := t.data, lastSeen := seen)
  {
    var s1 := ApplySample(s, seen);
    OneStep(s, Sample(seen));
    acts := [Sample(seen)];
    if s1.producer.Marking? {
      var n := MarkerLen(s1.ds, s1.writeIdx);
      MarkRun(s1, n);
      TimesOnly(PutZero, n + 1);
      RunConcat(s, acts, Times(PutZero, n + 1));
      acts := acts + Times(PutZero, n + 1);
    }
  }

  /** A whole write call that finds room at its first load. */
  lemma WriteCall(s: State, f: Frame) returns (acts: seq<Action>)
    requires Inv(s) && s.producer.Resting? && Sendable(f) && FrameLen(f) <= s.ds
    requires Accepts(Place(s.ds, s.writeIdx, s.readIdx, FrameLen(f)))
    ensures AllProducer(acts)
    ensures var t := Run(s, acts);
            && Inv(t) && t.sent == s.sent + [f] && t.writeIdx == Next(s.ds, s.writeIdx, f) && t.producer == Resting
            && t.consumer == s.consumer && t.readIdx == s.readIdx && t.received == s.received
  {
    var s1 := s.(producer := Looking(f, Encode(f)));
    var rest := WriteCompletes(s1, s.readIdx);
    OneStep(s, BeginWrite(f));
    RunConcat(s, [BeginWrite(f)], rest);
    acts := [BeginWrite(f)] + rest;
    RunKeeps(s, acts);
  }

  // ----- the zero-copy form -----

  /** The serialiser storing the first n bytes of a body in the span. */
  function Scribbles(body: seq<byte>, n: nat): seq<Action>
    requires n <= |body|
  {
    if n == 0 then [] else Scribbles(body, n - 1) + [Scribble(n - 1, body[n - 1])]
  }

  lemma {:induction false} ScribblesOnly(body: seq<byte>, n: nat)
    requires n <= |body|
    ensures AllProducer(Scribbles(body, n))
    decreases n
  {
    if n > 0 { ScribblesOnly(body, n - 1); }
  }

  lemma {:induction false} ScribbleRun(s: State, body: seq<byte>, n: nat)
    requires WellFormed(s) && s.producer.Spanning? && n <= |body| <= s.producer.cap && HEADER + s.producer.cap <= s.ds
    ensures var t := Run(s, Scribbles(body, n));
            && t == s.(data := t.data)
            && forall i: nat :: i < n ==> ByteAt(t.data, s.ds, s.writeIdx, HEADER + i) == body[i]
    decreases n
  {
    if n > 0 {
      ScribbleRun(s, body, n - 1);
      var t, a := Run(s, Scribbles(body, n - 1)), Scribble(n - 1, body[n - 1]);
      RunConcat(s, Scribbles(body, n - 1), [a]);
      OneStep(t, a);
      StoreElsewhere(t.data, s.ds, s.writeIdx, HEADER + n - 1, body[n - 1]);
    }
  }

  /** Bytes stored behind the header's place are the body a commit finds there. */
  lemma {:induction false} SpanHolds(s: State, body: seq<byte>)
    requires WellFormed(s) && HEADER + |body| <= Contig(s.writeIdx, s.ds)
    requires forall i: nat :: i < |body| ==> ByteAt(s.data, s.ds, s.writeIdx, HEADER + i) == body[i]
    ensures SpanBody(s, |body|) == body
  {
    var o := Off(s.writeIdx, s.ds);
    forall i: nat | i < |body| ensures s.data[o + HEADER + i] == body[i] {
      OffNext(s.writeIdx, HEADER + i, s.ds);
      assert ByteAt(s.data, s.ds, s.writeIdx, HEADER + i) == body[i];
    }
  }

  /** A span is taken, filled and committed: from there the frame is on its way. */
  lemma ToHeading(s: State, seen: nat, body: seq<byte>, kind: int32) returns (acts: seq<Action>)
    requires WellFormed(s) && s.producer.Resting? && Observable(s, seen) && HEADER + |body| < TWO32
    requires 0 < SpanCap(s.ds, s.writeIdx, seen) && |body| <= SpanCap(s.ds, s.writeIdx, seen)
    ensures AllProducer(acts)
    ensures var t, f := Run(s, acts), Frame(kind, body);
            t == s.(data := t.data, lastSeen := seen, producer := Heading(f, Encode(f), 0))
  {
    acts := ToSpan(s, seen, body);
    var t := Run(s, acts);
    OneStep(t, Commit(|body|, kind));
    RunConcat(s, acts, [Commit(|body|, kind)]);
    acts := acts + [Commit(|body|, kind)];
  }

  lemma ToSpan(s: State, seen: nat, body: seq<byte>) returns (acts: seq<Action>)
    requires WellFormed(s) && s.producer.Resting? && Observable(s, seen)
    requires 0 < SpanCap(s.ds, s.writeIdx, seen) && |body| <= SpanCap(s.ds, s.writeIdx, seen)
    ensures AllProducer(acts)
    ensures var t, cap := Run(s, acts), SpanCap(s.ds, s.writeIdx, seen);
            && t == s.(data := t.data, lastSeen := seen, producer := Spanning(cap))
            && HEADER + |body| <= Contig(s.writeIdx, s.ds) && SpanBody(t, |body|) == body
  {
    var s1 := s.(lastSeen := seen, producer := Spanning(SpanCap(s.ds, s.writeIdx, seen)));
    OneStep(s, TakeSpan(seen));
    ScribblesOnly(body, |body|);
    ScribbleRun(s1, body, |body|);
    SpanHolds(Run(s1, Scribbles(body, |body|)), body);
    RunConcat(s, [TakeSpan(seen)], Scribbles(body, |body|));
    acts := [TakeSpan(seen)] + Scribbles(body, |body|);
  }

  /**
   A body that fits the span is published by the zero-copy form with the producer's own steps, to
   the same effect as by the copying form: the same frame, ending at the same position.
   */
  lemma SpanWriteCompletes(s: State, seen: nat, body: seq<byte>, kind: int32) returns (acts: seq<Action>)
    requires WellFormed(s) && s.producer.Resting? && Observable(s, seen) && HEADER + |body| < TWO32
    requires var n := if |body| > 0 then |body| else 1;
             HEADER + n <= s.ds - s.writeIdx % s.ds && s.writeIdx + HEADER + n <= seen + s.ds
    ensures AllProducer(acts)
    ensures var t, f := Run(s, acts), Frame(kind, body);
            && t.sent == s.sent + [f] && t.writeIdx == Next(s.ds, s.writeIdx, f)
            && t.producer == Resting && t.consumer == s.consumer && t.readIdx == s.readIdx && t.received == s.received
  {
    var f := Frame(kind, body);
    SpanExact(s.ds, s.writeIdx, seen, if |body| > 0 then |body| else 1);
    OffIsMod(s.writeIdx, s.ds);
    acts := ToHeading(s, seen, body, kind);
    var rest := FinishHeading(Run(s, acts));
    RunConcat(s, acts, rest);
    acts := acts + rest;
    assert Start(s.ds, s.writeIdx, FrameLen(f)) == s.writeIdx;
  }

  // ----- neither side is ever stuck -----

  /** From every reachable state the producer alone comes to rest, having published the frame it was placing or none. */
  lemma ProducerRests(s: State) returns (acts: seq<Action>)
    requires Inv(s)
    ensures AllProducer(acts)
    ensures var t := Run(s, acts);
            && t.producer.Resting? && t.consumer == s.consumer && t.readIdx == s.readIdx && t.received == s.received
            && (t.sent == s.sent || (!s.producer.Resting? && !s.producer.Spanning? && t.sent == s.sent + [s.producer.frame]))
  {
    match s.producer
    case Resting => acts := [];
    case Looking(_, _) => acts := [GiveUp]; OneStep(s, GiveUp);
    case Spanning(_) => acts := [DropSpan]; OneStep(s, DropSpan);
    case Filling(_, _, _, _) => acts := FinishFilling(s);
    case Heading(_, _, _) => acts := FinishHeading(s);
    case Marking(_, _, _, _) => acts := MarkerRests(s);
  }

  lemma MarkerRests(s: State) returns (acts: seq<Action>)
    requires WellFormed(s) && s.producer.Marking? && s.producer.done <= MarkerLen(s.ds, s.writeIdx)
    ensures AllProducer(acts)
    ensures var t := Run(s, acts);
            && t.producer.Resting? && t.consumer == s.consumer && t.readIdx == s.readIdx && t.received == s.received
            && t.sent == if s.producer.room then s.sent + [s.producer.frame] else s.sent
  {
    var n := MarkerLen(s.ds, s.writeIdx) - s.producer.done;
    MarkRun(s, n);
    TimesOnly(PutZero, n + 1);
    acts := Times(PutZero, n + 1);
    var t := Run(s, acts);
    var rest := [GiveUp];
    if s.producer.room { rest := FinishFilling(t); } else { OneStep(t, GiveUp); }
    RunConcat(s, acts, rest);
    acts := acts + rest;
  }

  // ----- the consumer alone -----

  /** A pass over a loaded ring that pins, followed by the release, receives the oldest frame. */
  lemma PinAndRelease(s: State)
    requires RingInv(s) && s.consumer.Loaded? && Start(s.ds, s.readIdx, FrameLen(Pending(s)[0])) == s.readIdx
    ensures WellFormed(Apply(s, Inspect))
    ensures var t, f := Apply(Apply(s, Inspect), Release), Pending(s)[0];
            t == s.(readIdx := s.readIdx + FrameLen(f), consumer := Ready, received := s.received + [f])
  {
    PinOutcome(s);
    ReleaseIs(ApplyInspect(s));
  }

  /** A load of the current value on a ring that is not empty. */
  lemma FreshLoad(s: State)
    requires Inv(s) && s.consumer.Looping? && |s.received| < |s.sent|
    ensures var t := s.(known := |s.sent|, consumer := Loaded(s.consumer.skips));
            Apply(s, Load(|s.sent|)) == t && Inv(t)
  {
    LoadValue(s, |s.sent|);
    LoadKeeps(s, |s.sent|);
  }

  /** A skipping pass leads, with the next load, to a loaded ring at the frame itself. */
  lemma SkipAndLoad(s: State)
    requires Inv(s) && s.consumer.Loaded? && Start(s.ds, s.readIdx, FrameLen(Pending(s)[0])) != s.readIdx
    ensures WellFormed(Apply(s, Inspect))
    ensures var t, r := Apply(Apply(s, Inspect), Load(|s.sent|)), Start(s.ds, s.readIdx, FrameLen(Pending(s)[0]));
            && t == s.(readIdx := r, known := |s.sent|, consumer := Loaded(1)) && Inv(t)
            && Start(s.ds, r, FrameLen(Pending(s)[0])) == r
  {
    SkipOutcome(s);
    HistoryInspect(s);
    FreshLoad(ApplyInspect(s));
  }

  /** A read call on a ring that is not empty gets as far as a loaded ring. */
  lemma BeginAndLoad(s: State)
    requires Inv(s) && s.consumer.Ready? && |s.received| < |s.sent|
    ensures var t := s.(known := |s.sent|, consumer := Loaded(0));
            Run(s, [BeginRead, Load(|s.sent|)]) == t && Inv(t)
  {
    BeginReadKeeps(s);
    FreshLoad(s.(consumer := Looping(0)));
    TwoSteps(s, BeginRead, Load(|s.sent|));
  }

  /** A read call up to a loaded ring with the reader at the oldest frame. */
  lemma ReadyToPin(s: State) returns (acts: seq<Action>, k: nat)
    requires Inv(s) && s.consumer.Ready? && |s.received| < |s.sent|
    ensures AllConsumer(acts)
    ensures var r := Start(s.ds, s.readIdx, FrameLen(s.sent[|s.received|]));
            var t := s.(readIdx := r, known := |s.sent|, consumer := Loaded(k));
            Run(s, acts) == t && Inv(t) && Start(s.ds, r, FrameLen(s.sent[|s.received|])) == r
  {
    BeginAndLoad(s);
    acts, k := [BeginRead, Load(|s.sent|)], 0;
    var s2 := Run(s, acts);
    if Start(s.ds, s.readIdx, FrameLen(Pending(s)[0])) != s.readIdx {
      SkipAndLoad(s2);
      TwoSteps(s2, Inspect, Load(|s.sent|));
      RunConcat(s, acts, [Inspect, Load(|s.sent|)]);
      acts, k := acts + [Inspect, Load(|s.sent|)], 1;
    }
  }

  /** One read call receives the oldest unreceived frame, whatever the producer is doing. */
  lemma ReadCompletes(s: State) returns (acts: seq<Action>)
    requires Inv(s) && s.consumer.Ready? && |s.received| < |s.sent|
    ensures AllConsumer(acts)
    ensures var t, f := Run(s, acts), s.sent[|s.received|];
            && t.received == s.received + [f] && t.readIdx == Next(s.ds, s.readIdx, f)
            && t.consumer == Ready && t.sent == s.sent && t.producer == s.producer && t.writeIdx == s.writeIdx
  {
    var k;
    acts, k := ReadyToPin(s);
    var s3 := Run(s, acts);
    PinAndRelease(s3);
    TwoSteps(s3, Inspect, Release);
    RunConcat(s, acts, [Inspect, Release]);
    acts := acts + [Inspect, Release];
  }

  /** An empty ring stands where its last publication ended, and the reader knows it. */
  lemma DrainedEnds(s: State)
    requires History(s) && s.received == s.sent
    ensures s.readIdx == s.writeIdx == EndOf(s.ds, s.sent) && s.known == |s.sent|
  {
  }

  /** One frame through an empty ring. */
  lemma WriteAndRead(s: State, f: Frame) returns (acts: seq<Action>)
    requires Inv(s) && s.producer.Resting? && s.consumer.Ready? && s.received == s.sent
    requires Sendable(f) && FrameLen(f) <= s.ds && Accepts(Place(s.ds, s.writeIdx, s.writeIdx, FrameLen(f)))
    ensures var t := Run(s, acts);
            && Inv(t) && t.producer.Resting? && t.consumer.Ready? && t.received == t.sent
            && t.writeIdx == Next(s.ds, s.writeIdx, f)
  {
    DrainedEnds(s);
    acts := WriteCall(s, f);
    var back := ReadCompletes(Run(s, acts));
    RunConcat(s, acts, back);
    acts := acts + back;
    RunKeeps(s, acts);
  }

  /** From a loaded ring the reader alone receives a frame and is idle. */
  lemma LoadedRests(s: State) returns (acts: seq<Action>)
    requires Inv(s) && s.consumer.Loaded?
    ensures AllConsumer(acts) && Run(s, acts).consumer.Ready? && Run(s, acts).sent == s.sent
  {
    acts := [];
    if Start(s.ds, s.readIdx, FrameLen(Pending(s)[0])) != s.readIdx {
      SkipAndLoad(s);
      TwoSteps(s, Inspect, Load(|s.sent|));
      acts := [Inspect, Load(|s.sent|)];
    }
    var t := Run(s, acts);
    PinAndRelease(t);
    TwoSteps(t, Inspect, Release);
    RunConcat(s, acts, [Inspect, Release]);
    acts := acts + [Inspect, Release];
  }

  lemma LoopingRests(s: State) returns (acts: seq<Action>)
    requires Inv(s) && s.consumer.Looping?
    ensures AllConsumer(acts) && Run(s, acts).consumer.Ready? && Run(s, acts).sent == s.sent
  {
    var k := |s.sent|;
    OneStep(s, Load(k));
    acts := [Load(k)];
    if |s.received| < k {
      FreshLoad(s);
      var rest := LoadedRests(Apply(s, Load(k)));
      RunConcat(s, acts, rest);
      acts := acts + rest;
    } else {
      LoadValue(s, k);
    }
  }

  /** From every reachable state the reader alone becomes idle. */
  lemma ReaderRests(s: State) returns (acts: seq<Action>)
    requires Inv(s)
    ensures AllConsumer(acts) && Run(s, acts).consumer.Ready? && Run(s, acts).sent == s.sent
  {
    acts := [];
    match s.consumer
    case Ready =>
    case Pinned(_, _, _) =>
      ReleaseIs(s);
      OneStep(s, Release);
      acts := [Release];
    case Loaded(_) => acts := LoadedRests(s);
    case Looping(_) => acts := LoopingRests(s);
    case Failed => assert false;
  }

  /** From every reachable state the reader alone receives everything published so far. */
  lemma ReaderAlwaysCatchesUp(s: State) returns (acts: seq<Action>)
    requires Inv(s)
    ensures AllConsumer(acts) && Run(s, acts).received == s.sent
  {
    acts := ReaderRests(s);
    RunKeeps(s, acts);
    var rest := ReaderCatchesUp(Run(s, acts));
    RunConcat(s, acts, rest);
    acts := acts + rest;
  }

  /** From every reachable state with an idle reader, the reader alone receives everything published so far. */
  lemma {:induction false} ReaderCatchesUp(s: State) returns (acts: seq<Action>)
    requires Inv(s) && s.consumer.Ready?
    ensures AllConsumer(acts) && Run(s, acts).received == s.sent
    decreases |s.sent| - |s.received|
  {
    acts := [];
    if |s.received| < |s.sent| {
      var first := ReadCompletes(s);
      RunKeeps(s, first);
      var rest := ReaderCatchesUp(Run(s, first));
      RunConcat(s, first, rest);
      acts := first + rest;
    }
  }
}
