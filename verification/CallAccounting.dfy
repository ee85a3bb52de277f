/**
 What the synchronous calls report to the breaker, exit by exit, and what follows for a breaker
 under any mix of overlapping calls.
 */
module CallAccounting {
  import B = Breaker
  import opened Options
  import opened RetryLoop

  datatype RespCode = Success | TimedOut | Busy | OtherCode

  /** What Requestor::send comes to: an error, a reply of the wrong class, or a reply with a code. */
  datatype Sent = SendFailed(err: RpcError) | WrongType | Replied(code: RespCode)

  /** What a call returns and the outcomes it reported on the way; true is a success. */
  datatype Exit = Exit(ok: bool, err: RpcError, reports: seq<bool>)

  /** TIMEOUT and CONN_CLOSED speak of the remote end; the other send errors are local. */
  predicate IsHostSendFailure(e: RpcError) { e.Timeout? || e.ConnClosed? }

  function FromRespCode(c: RespCode): RpcError {
    match c
    case TimedOut => Timeout
    case Busy => Backoff
    case _ => ServiceError
  }

  function FailedSend(e: RpcError): Exit { Exit(false, e, if IsHostSendFailure(e) then [false] else []) }

  /** RpcCaller::call after admission. */
  function SyncCall(sent: Sent): Exit {
    match sent
    case SendFailed(e) => FailedSend(e)
    case WrongType => Exit(false, ServiceError, [false])
    case Replied(code) => if code.Success? then Exit(true, Ok, [true]) else Exit(false, FromRespCode(code), [false])
  }

  /** RpcCaller::call_proto after admission: a busy reply is retried once. */
  function SyncCallProto(serialized: bool, first: Sent, second: Sent, parsed: bool): Exit {
    if !serialized then Exit(false, ServiceError, [false])
    else
      match first
      case SendFailed(e) => FailedSend(e)
      case WrongType => Exit(false, ServiceError, [false])
      case Replied(code) =>
        if code.Busy? then
          match second
          case SendFailed(e) => FailedSend(e)
          case WrongType => Exit(false, ServiceError, [false])
          case Replied(code2) => if code2.Busy? then Exit(false, Backoff, [false]) else Concluded(code2, parsed)
        else Concluded(code, parsed)
  }

  function Concluded(code: RespCode, parsed: bool): Exit {
    if !code.Success? then Exit(false, FromRespCode(code), [false])
    else if !parsed then Exit(false, ServiceError, [false])
    else Exit(true, Ok, [true])
  }

  datatype Call = Plain(sent: Sent) | Proto(serialized: bool, first: Sent, second: Sent, parsed: bool)

  function Finish(call: Call): Exit {
    match call
    case Plain(sent) => SyncCall(sent)
    case Proto(s, f, g, p) => SyncCallProto(s, f, g, p)
  }

  /** The send that ended the call failed for a local reason. */
  predicate LocalSend(s: Sent) { s.SendFailed? && !IsHostSendFailure(s.err) }

  predicate EndsLocally(call: Call) {
    match call
    case Plain(sent) => LocalSend(sent)
    case Proto(s, f, g, _) => s && (LocalSend(f) || (f == Replied(Busy) && LocalSend(g)))
  }

  /** A call reports exactly one outcome, and reports success iff it returns it; only a local send failure reports none. */
  lemma OneReport(call: Call)
    ensures |Finish(call).reports| == if EndsLocally(call) then 0 else 1
    ensures Finish(call).ok <==> Finish(call).reports == [true]
    ensures Finish(call).ok ==> Finish(call).err.Ok?
    ensures Finish(call).reports == [] ==> !IsHostSendFailure(Finish(call).err)
  {
  }

  /** A call of either kind succeeds exactly when the reply that decides it is a success that can be parsed. */
  lemma SucceedsExactly(call: Call)
    ensures Finish(call).ok <==>
            match call
            case Plain(sent) => sent == Replied(Success)
            case Proto(serialized, first, second, parsed) =>
              serialized && parsed && (first == Replied(Success) || (first == Replied(Busy) && second == Replied(Success)))
  {
  }

  /** The error a failed call returns: that of the send, or the one the reply's code stands for. */
  lemma FailsWith(call: Call)
    requires !Finish(call).ok
    ensures match call
            case Plain(SendFailed(e)) => Finish(call).err == e
            case Plain(Replied(code)) =>
              Finish(call).err == if code == TimedOut then Timeout else if code == Busy then Backoff else ServiceError
            case Proto(true, SendFailed(e), _, _) => Finish(call).err == e
            case Proto(true, Replied(Busy), SendFailed(e), _) => Finish(call).err == e
            case Proto(true, Replied(Busy), Replied(code), _) =>
              Finish(call).err == if code == TimedOut then Timeout else if code == Busy then Backoff else ServiceError
            case Proto(true, Replied(code), _, _) => Finish(call).err == if code == TimedOut then Timeout else ServiceError
            case _ => Finish(call).err == ServiceError
  {
  }

  /** Of the send errors, TIMEOUT and CONN_CLOSED are held against the host; the others are not reported. */
  lemma BlamesHostExactly(e: RpcError)
    ensures Finish(Plain(SendFailed(e))).reports == if e == Timeout || e == ConnClosed then [false] else []
  {
  }

  // ----- overlapping calls over one breaker -----

  /** An admitted call: the half-open episode it was admitted in or after, and how it ended, if it has. */
  datatype Record = Record(episode: nat, end: Option<Call>)

  /** episode: how often the breaker has entered HalfOpen; calls: the admitted calls in order of admission. */
  datatype System = System(b: B.Breaker, episode: nat, calls: seq<Record>)

  datatype Event =
    | Begin(now: int)                    // allowRequest
    | End(i: nat, call: Call, at: int)   // the i-th admitted call finishes
    | Unavailable(at: int)               // onConnectionUnavailable

  function Report(c: B.Config, b: B.Breaker, reports: seq<bool>, at: int): B.Breaker
    requires c.window > 0
  {
    if reports == [] then b else B.Step(c, b, if reports[0] then B.Success else B.Failure(at))
  }

  predicate Running(s: System, i: int) { 0 <= i < |s.calls| && s.calls[i].end.None? }

  /** The i-th call was admitted in the current half-open episode. */
  predicate Probe(s: System, i: int) { s.b.phase.HalfOpen? && 0 <= i < |s.calls| && s.calls[i].episode == s.episode }

  function Next(c: B.Config, s: System, e: Event): System
    requires c.window > 0
  {
    match e
    case Begin(now) =>
      if !B.Admits(c, s.b, now) then s
      else
        var b := B.Step(c, s.b, B.Allow(now));
        var n := s.episode + (if b.phase.HalfOpen? && !s.b.phase.HalfOpen? then 1 else 0);
        System(b, n, s.calls + [Record(n, None)])
    case End(i, call, at) =>
      if !Running(s, i) then s
      else s.(b := Report(c, s.b, Finish(call).reports, at), calls := s.calls[i := s.calls[i].(end := Some(call))])
    case Unavailable(at) => s.(b := B.Step(c, s.b, B.Failure(at)))
  }

  function RunAll(c: B.Config, s: System, es: seq<Event>): System
    requires c.window > 0
    decreases |es|
  {
    if es == [] then s else RunAll(c, Next(c, s, es[0]), es[1..])
  }

  const IDLE := System(B.FRESH, 0, [])

  ghost predicate HasProbe(s: System) { exists i :: Probe(s, i) }

  /** Calls ending in a way that reports nothing are the only ones a half-open breaker survives. */
  ghost predicate ProbeInv(s: System) {
    && (forall i :: 0 <= i < |s.calls| ==> s.calls[i].episode <= s.episode)
    && (s.b.phase.HalfOpen? ==> HasProbe(s))
    && forall i :: Probe(s, i) && s.calls[i].end.Some? ==> EndsLocally(s.calls[i].end.value)
  }

  lemma BeginKeeps(c: B.Config, s: System, now: int)
    requires c.window > 0 && ProbeInv(s)
    ensures ProbeInv(Next(c, s, Begin(now)))
  {
    var t := Next(c, s, Begin(now));
    if B.Admits(c, s.b, now) && t.b.phase.HalfOpen? {
      assert Probe(t, |s.calls|);
      forall i | Probe(t, i) && t.calls[i].end.Some? ensures EndsLocally(t.calls[i].end.value) {
        assert Probe(s, i);
      }
    }
  }

  lemma EndKeeps(c: B.Config, s: System, i: nat, call: Call, at: int)
    requires c.window > 0 && ProbeInv(s)
    ensures ProbeInv(Next(c, s, End(i, call, at)))
  {
    var t := Next(c, s, End(i, call, at));
    OneReport(call);
    if Running(s, i) && t.b.phase.HalfOpen? {
      var p :| Probe(s, p);
      assert Probe(t, p);
      forall j | Probe(t, j) && t.calls[j].end.Some? ensures EndsLocally(t.calls[j].end.value) {
        assert Probe(s, j);
      }
    }
  }

  lemma {:induction false} ProbesKeep(c: B.Config, s: System, es: seq<Event>)
    requires c.window > 0 && ProbeInv(s)
    ensures ProbeInv(RunAll(c, s, es))
    decreases |es|
  {
    if es != [] {
      match es[0] {
        case Begin(now) => BeginKeeps(c, s, now);
        case End(i, call, at) => EndKeeps(c, s, i, call, at);
        case Unavailable(_) =>
      }
      ProbesKeep(c, Next(c, s, es[0]), es[1..]);
    }
  }

  predicate NoneLocal(es: seq<Event>) { forall i :: 0 <= i < |es| && es[i].End? ==> !EndsLocally(es[i].call) }

  ghost predicate NoLocalEnd(s: System) {
    forall i :: 0 <= i < |s.calls| && s.calls[i].end.Some? ==> !EndsLocally(s.calls[i].end.value)
  }

  lemma {:induction false} NoLocalExits(c: B.Config, s: System, es: seq<Event>)
    requires c.window > 0 && NoLocalEnd(s) && NoneLocal(es)
    ensures NoLocalEnd(RunAll(c, s, es))
    decreases |es|
  {
    if es != [] {
      assert forall i :: 0 <= i < |es[1..]| ==> es[1..][i] == es[i + 1];
      NoLocalExits(c, Next(c, s, es[0]), es[1..]);
    }
  }

  /**
   Without local exits a half-open breaker always has a probe of its episode in flight, and
   whichever call finishes next takes it out of HalfOpen: to Closed if that call succeeded, to Open
   otherwise.
   */
  lemma HalfOpenResolves(c: B.Config, es: seq<Event>)
    requires c.window > 0 && NoneLocal(es)
    ensures var s := RunAll(c, IDLE, es);
            s.b.phase.HalfOpen? ==>
              && (exists i :: Probe(s, i) && Running(s, i))
              && forall i, call, at :: Running(s, i) && !EndsLocally(call) ==>
                   Next(c, s, End(i, call, at)).b.phase == if Finish(call).ok then B.Closed else B.Open
  {
    var s := RunAll(c, IDLE, es);
    ProbesKeep(c, IDLE, es);
    NoLocalExits(c, IDLE, es);
    if s.b.phase.HalfOpen? {
      var i :| Probe(s, i);
      assert Running(s, i);
      forall j, call, at | Running(s, j) && !EndsLocally(call)
        ensures Next(c, s, End(j, call, at)).b.phase == if Finish(call).ok then B.Closed else B.Open
      {
        OneReport(call);
      }
    }
  }

  // ----- the breaker that refuses for good -----

  /** Half open, quota used up, nothing in flight. */
  ghost predicate Stuck(c: B.Config, s: System) {
    s.b.phase.HalfOpen? && s.b.halfOpen >= c.halfOpenMax && forall i :: !Running(s, i)
  }

  /** No connection failure is reported from outside. */
  predicate NoLoss(es: seq<Event>) { forall i :: 0 <= i < |es| ==> !es[i].Unavailable? }

  /** A stuck breaker refuses every request, whatever the time. */
  lemma {:induction false} StuckForever(c: B.Config, s: System, es: seq<Event>)
    requires c.window > 0 && Stuck(c, s) && NoLoss(es)
    ensures RunAll(c, s, es) == s && forall now :: !B.Admits(c, s.b, now)
    decreases |es|
  {
    if es != [] {
      assert Next(c, s, es[0]) == s;
      assert forall i :: 0 <= i < |es[1..]| ==> es[1..][i] == es[i + 1];
      StuckForever(c, s, es[1..]);
    }
  }

  const GOOD_CALL := Plain(Replied(Success))

  /** After events without an outside report, a request at this time is admitted. */
  ghost predicate AdmitsLater(c: B.Config, s: System, es: seq<Event>, now: int)
    requires c.window > 0
  {
    NoLoss(es) && B.Admits(c, RunAll(c, s, es).b, now)
  }

  /** A half-open breaker never admits again, in any continuation without an outside report, exactly when it is stuck. */
  lemma StuckExactly(c: B.Config, s: System)
    requires c.window > 0 && s.b.phase.HalfOpen?
    ensures (forall es, now :: !AdmitsLater(c, s, es, now)) <==> Stuck(c, s)
  {
    if Stuck(c, s) {
      forall es, now ensures !AdmitsLater(c, s, es, now) {
        if NoLoss(es) { StuckForever(c, s, es); }
      }
    } else if s.b.halfOpen < c.halfOpenMax {
      assert AdmitsLater(c, s, [], 0);
    } else {
      var i :| Running(s, i);
      var es := [End(i, GOOD_CALL, 0)];
      assert RunAll(c, s, es) == RunAll(c, Next(c, s, es[0]), []) by { assert es[1..] == []; }
      assert AdmitsLater(c, s, es, 0);
    }
  }

  /** In a stuck state that a run has reached, every probe of the current episode ended locally, and there was one. */
  lemma StuckOnlyAfterLocalExits(c: B.Config, es: seq<Event>)
    requires c.window > 0 && Stuck(c, RunAll(c, IDLE, es))
    ensures var s := RunAll(c, IDLE, es);
            && HasProbe(s)
            && forall i :: Probe(s, i) ==> s.calls[i].end.Some? && EndsLocally(s.calls[i].end.value)
  {
    ProbesKeep(c, IDLE, es);
    var s := RunAll(c, IDLE, es);
    forall i | Probe(s, i) ensures s.calls[i].end.Some? && EndsLocally(s.calls[i].end.value) {
      assert !Running(s, i);
    }
  }

  lemma {:induction false} RunConcat(c: B.Config, s: System, a: seq<Event>, b: seq<Event>)
    requires c.window > 0
    ensures RunAll(c, s, a + b) == RunAll(c, RunAll(c, s, a), b)
    decreases |a|
  {
    if a == [] {
      assert a + b == b;
    } else {
      assert (a + b)[0] == a[0] && (a + b)[1..] == a[1..] + b;
      RunConcat(c, Next(c, s, a[0]), a[1..], b);
    }
  }

  lemma TwoEvents(c: B.Config, s: System, a: Event, b: Event)
    requires c.window > 0
    ensures RunAll(c, s, [a, b]) == Next(c, Next(c, s, a), b)
  {
    var t := Next(c, s, a);
    assert RunAll(c, t, [b]) == RunAll(c, Next(c, t, b), [b][1..]);
    assert RunAll(c, s, [a, b]) == RunAll(c, t, [a, b][1..]) && [a, b][1..] == [b];
  }

  const LOCAL_EXIT := Plain(SendFailed(Backoff))

  ghost predicate AllEnded(s: System) { forall i :: !Running(s, i) }

  /** One request that is admitted and ends locally. */
  function Visit(s: System, now: int): seq<Event> { [Begin(now), End(|s.calls|, LOCAL_EXIT, now)] }

  lemma VisitRuns(c: B.Config, s: System, now: int)
    requires c.window > 0 && AllEnded(s) && !s.b.phase.Closed? && B.Admits(c, s.b, now)
    ensures var t := RunAll(c, s, Visit(s, now));
            AllEnded(t) && t.b == s.b.(phase := B.HalfOpen, halfOpen := s.b.halfOpen + 1)
  {
    var n := |s.calls|;
    var t := Next(c, s, Begin(now));
    var u := Next(c, t, End(n, LOCAL_EXIT, now));
    TwoEvents(c, s, Begin(now), End(n, LOCAL_EXIT, now));
    forall i ensures !Running(u, i) {
      if 0 <= i < n { assert !Running(s, i) && u.calls[i] == s.calls[i]; }
    }
  }

  /** Lost connections enough to open the breaker. */
  function Losses(n: nat): seq<Event> { if n == 0 then [] else [Unavailable(0)] + Losses(n - 1) }

  /** Open since time 0 with no call made yet. */
  ghost predicate OpenedAtZero(s: System) { s.b.phase.Open? && s.b.openedSince == 0 && s.calls == [] }

  lemma {:induction false} LossesOpen(c: B.Config, s: System, k: nat, n: nat) returns (m: nat)
    requires B.Clamped(c) && s.b.phase.Closed? && s.calls == [] && s.b.openedSince == 0
    requires k < c.window && B.EndsInFailures(s.b.log, k) && k + n >= c.window
    ensures OpenedAtZero(RunAll(c, s, Losses(m)))
    decreases n
  {
    var t := Next(c, s, Unavailable(0));
    if t.b.phase.Closed? {
      if k + 1 == c.window { B.FullWindowOpens(c, t.b.log); }
      m := LossesOpen(c, t, k + 1, n - 1);
      assert Losses(m + 1)[1..] == Losses(m);
      m := m + 1;
    } else {
      m := 1;
      assert Losses(1)[1..] == Losses(0);
      assert RunAll(c, s, Losses(1)) == RunAll(c, t, Losses(0));
    }
  }

  /** Probes, each ending locally, until the quota is used up. */
  lemma {:induction false} QuotaRunsOut(c: B.Config, s: System) returns (es: seq<Event>)
    requires c.window > 0 && s.b.phase.HalfOpen? && AllEnded(s)
    ensures Stuck(c, RunAll(c, s, es))
    decreases c.halfOpenMax - s.b.halfOpen
  {
    es := [];
    if s.b.halfOpen < c.halfOpenMax {
      VisitRuns(c, s, 0);
      var rest := QuotaRunsOut(c, RunAll(c, s, Visit(s, 0)));
      RunConcat(c, s, Visit(s, 0), rest);
      es := Visit(s, 0) + rest;
    }
  }

  /** Under every configuration some run of calls leaves the breaker stuck. */
  lemma StuckReachable(raw: B.Config) returns (es: seq<Event>)
    ensures Stuck(B.Clamp(raw), RunAll(B.Clamp(raw), IDLE, es))
  {
    var c := B.Clamp(raw);
    var m := LossesOpen(c, IDLE, 0, c.window);
    var s1 := RunAll(c, IDLE, Losses(m));
    var late := if c.openTime > 0 then c.openTime else 0;
    VisitRuns(c, s1, late);
    var s2 := RunAll(c, s1, Visit(s1, late));
    var rest := QuotaRunsOut(c, s2);
    RunConcat(c, IDLE, Losses(m), Visit(s1, late));
    RunConcat(c, IDLE, Losses(m) + Visit(s1, late), rest);
    es := Losses(m) + Visit(s1, late) + rest;
  }
}
