/**
 Which frame lengths a drained ring accepts. The capacity check admits every frame up to the
 size of the data area, but a frame must also fit on one side of the current offset.
 */
module RingCapacity {
  import opened Arith
  import opened Bytes
  import opened RingLayout
  import opened RingProtocol
  import opened RingProgress

  function Max(a: nat, b: nat): nat { if a >= b then a else b }

  /** On a drained ring the two space checks accept a length iff one side of the offset holds it. */
  lemma DrainedAccepts(ds: nat, w: nat, len: nat)
    requires ds > 0 && len <= ds
    ensures Accepts(Place(ds, w, w, len)) <==> len <= Max(Off(w, ds), ds - Off(w, ds))
  {
  }

  /** A frame of at most half the ring, rounded up, is accepted wherever the ring was drained. */
  lemma HalfAlwaysFits(ds: nat, w: nat, len: nat)
    requires ds > 0 && 2 * len <= ds + 1
    ensures Accepts(Place(ds, w, w, len))
  {
    DrainedAccepts(ds, w, len);
  }

  /** An older value of read_idx never makes a refused frame acceptable. */
  lemma StaleNeverHelps(ds: nat, w: nat, seen: nat, newer: nat, len: nat)
    requires ds > 0 && seen <= newer <= w <= seen + ds
    ensures Accepts(Place(ds, w, seen, len)) ==> Accepts(Place(ds, w, newer, len))
  {
  }

  // ----- refusal for good -----

  /** Every write attempted is for a frame of this length. */
  predicate OnlyLength(acts: seq<Action>, len: nat) {
    forall i :: 0 <= i < |acts| ==> OfLength(acts[i], len)
  }

  predicate OfLength(a: Action, len: nat) {
    && (a.BeginWrite? ==> FrameLen(a.frame) == len)
    && (a.Commit? ==> HEADER + a.bodyLen == len)
  }

  /** Drained at a position from which neither side holds len bytes, with no write of that length past its checks. */
  ghost predicate Refusing(s: State, w: nat, len: nat) {
    && WellFormed(s)
    && Max(Off(w, s.ds), s.ds - Off(w, s.ds)) < len <= s.ds
    && s.writeIdx == s.readIdx == w == EndOf(s.ds, s.sent) && s.known == |s.sent|
    && (s.consumer.Ready? || s.consumer.Looping?)
    && match s.producer
       case Resting => true
       case Looking(f, img) => FrameLen(f) == len
       case Marking(f, img, room, done) => FrameLen(f) == len && !room
       case Filling(_, _, _, _) => false
       case Spanning(cap) => HEADER + cap < len
       case Heading(_, _, _) => false
  }

  lemma RefusingSample(s: State, w: nat, len: nat, seen: nat)
    requires Refusing(s, w, len)
    ensures Refusing(ApplySample(s, seen), w, len)
  {
    if s.producer.Looking? && Observable(s, seen) {
      DrainedAccepts(s.ds, w, len);
      StaleNeverHelps(s.ds, w, seen, w, len);
    }
  }

  lemma RefusingSpan(s: State, w: nat, len: nat, seen: nat)
    requires Refusing(s, w, len)
    ensures Refusing(ApplyTakeSpan(s, seen), w, len) && ApplyTakeSpan(s, seen).sent == s.sent
  {
  }

  lemma RefusingReader(s: State, w: nat, len: nat, a: Action)
    requires Refusing(s, w, len) && OfConsumer(a)
    ensures Refusing(Apply(s, a), w, len) && Apply(s, a).sent == s.sent
  {
    assert s.sent[..|s.sent|] == s.sent;
  }

  lemma RefusingWriter(s: State, w: nat, len: nat, a: Action)
    requires Refusing(s, w, len) && OfLength(a, len) && !OfConsumer(a) && !a.Sample? && !a.TakeSpan?
    ensures Refusing(Apply(s, a), w, len) && Apply(s, a).sent == s.sent
  {
    if a.PutZero? { RefusingMarker(s, w, len); }
    else if a.Commit? { assert ApplyCommit(s, a.bodyLen, a.kind) == s; }
    else if a.Publish? { assert ApplyPublish(s) == s; }
  }

  lemma RefusingMarker(s: State, w: nat, len: nat)
    requires Refusing(s, w, len)
    ensures Refusing(ApplyPutZero(s), w, len) && ApplyPutZero(s).sent == s.sent
  {
  }

  lemma RefusingStep(s: State, w: nat, len: nat, a: Action)
    requires Refusing(s, w, len) && OfLength(a, len)
    ensures Refusing(Apply(s, a), w, len) && Apply(s, a).sent == s.sent
  {
    if OfConsumer(a) { RefusingReader(s, w, len, a); }
    else if a.Sample? { RefusingSample(s, w, len, a.seen); }
    else if a.TakeSpan? { RefusingSpan(s, w, len, a.spanSeen); }
    else { RefusingWriter(s, w, len, a); }
  }

  lemma {:induction false} RefusedForever(s: State, w: nat, len: nat, acts: seq<Action>)
    requires Refusing(s, w, len) && OnlyLength(acts, len)
    ensures Refusing(Run(s, acts), w, len) && Run(s, acts).sent == s.sent
    decreases |acts|
  {
    if acts != [] {
      RefusingStep(s, w, len, acts[0]);
      RefusedForever(Apply(s, acts[0]), w, len, acts[1..]);
    }
  }

  /**
   The half-ring bound is tight: for any longer frame that passes the capacity check there is a
   run after which the ring is drained and refuses frames of that length, in both write forms and
   however often they are retried, until a frame of another length is written.
   */
  lemma HalfIsTight(data: seq<byte>, len: nat) returns (acts: seq<Action>)
    requires |data| >= 16 && len <= |data| && len < TWO32 && 2 * len > |data| + 1
    ensures var s := Run(Init(data), acts);
            && s.readIdx == s.writeIdx
            && forall more :: OnlyLength(more, len) ==> Run(s, more).sent == s.sent
  {
    var ds := |data|;
    var f := Frame(0, seq(ds / 2 - HEADER, _ => 0));
    acts := WriteAndRead(Init(data), f);
    var s := Run(Init(data), acts);
    DrainedEnds(s);
    forall more | OnlyLength(more, len) ensures Run(s, more).sent == s.sent {
      RefusedForever(s, ds / 2, len, more);
    }
  }
}
