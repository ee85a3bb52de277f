/**
 The circuit breaker of one method on one host, as values: its three phases, the outcomes it
 remembers as a plain list, and what whole runs of it admit.
 */
module Breaker {

  datatype Config = Config(window: int, minCalls: int, ratioPercent: int, openTime: int, halfOpenMax: int)

  datatype Phase = Closed | Open | HalfOpen

  /** log holds every outcome recorded since the window was last cleared; true is a success. */
  datatype Breaker = Breaker(phase: Phase, halfOpen: int, openedSince: int, log: seq<bool>)

  datatype Event = Allow(now: int) | Success | Failure(at: int)

  const FRESH := Breaker(Closed, 0, 0, [])

  /** What the constructor makes of a configuration. */
  function Clamp(c: Config): Config {
    var w := if c.window < 1 then 1 else c.window;
    var m := if c.minCalls < 1 then 1 else c.minCalls;
    var r := if c.ratioPercent < 1 then 1 else c.ratioPercent;
    c.(window := w, minCalls := if m > w then w else m, ratioPercent := if r > 100 then 100 else r)
  }

  predicate Clamped(c: Config) {
    1 <= c.minCalls <= c.window && 1 <= c.ratioPercent <= 100
  }

  /** The last w outcomes. */
  function Recent(log: seq<bool>, w: nat): seq<bool> {
    if |log| <= w then log else log[|log| - w..]
  }

  function Count(s: seq<bool>, v: bool): nat {
    if s == [] then 0 else (if s[0] == v then 1 else 0) + Count(s[1..], v)
  }

  /** Enough samples in the window, and the failure ratio reached. */
  predicate ShouldOpen(c: Config, log: seq<bool>)
    requires c.window > 0
  {
    var r := Recent(log, c.window);
    |r| >= c.minCalls && Count(r, false) * 100 >= |r| * c.ratioPercent
  }

  /** Does a recorded failure open the breaker? A failed probe does; in Closed the window decides. */
  predicate Opens(c: Config, phase: Phase, log: seq<bool>)
    requires c.window > 0
  {
    phase.HalfOpen? || (phase.Closed? && ShouldOpen(c, log))
  }

  /** Would an allowRequest at this time be admitted? */
  predicate Admits(c: Config, b: Breaker, now: int) {
    match b.phase
    case Closed => true
    case Open => now - b.openedSince >= c.openTime
    case HalfOpen => b.halfOpen < c.halfOpenMax
  }

  function Step(c: Config, b: Breaker, e: Event): Breaker
    requires c.window > 0
  {
    match e
    case Allow(now) =>
      if b.phase.Closed? || !Admits(c, b, now) then b
      else b.(phase := HalfOpen, halfOpen := b.halfOpen + 1)
    case Success =>
      if b.phase.Closed? then b.(log := b.log + [true])
      else b.(phase := Closed, halfOpen := 0, log := [])
    case Failure(at) =>
      var b1 := b.(log := b.log + [false]);
      if Opens(c, b1.phase, b1.log) then b1.(phase := Open, openedSince := at) else b1
  }

  function Run(c: Config, b: Breaker, es: seq<Event>): Breaker
    requires c.window > 0
    decreases |es|
  {
    if es == [] then b else Run(c, Step(c, b, es[0]), es[1..])
  }

  /** The clamps leave an admissible configuration alone and make every other one admissible. */
  lemma ClampExact(c: Config)
    ensures Clamped(Clamp(c)) && (Clamped(c) <==> Clamp(c) == c)
    ensures Clamp(c).openTime == c.openTime && Clamp(c).halfOpenMax == c.halfOpenMax
  {
  }

  // ----- phases -----

  /**
   Every change of phase: a success leads to Closed from anywhere, an admitted request leads from
   Open to HalfOpen, a failure leads from HalfOpen and, by the window, from Closed to Open.
   Closing clears the counter and the outcomes; nothing else does.
   */
  lemma PhaseMovesExactly(c: Config, b: Breaker, e: Event)
    requires c.window > 0
    ensures var t := Step(c, b, e);
            && (e.Success? ==> t.phase.Closed?)
            && (e.Failure? ==> (t.phase.Open? <==> b.phase.Open? || Opens(c, b.phase, b.log + [false])))
            && (e.Failure? && !t.phase.Open? ==> t.phase == b.phase)
            && (e.Allow? ==> t.phase == if b.phase.Open? && e.now - b.openedSince >= c.openTime then HalfOpen else b.phase)
            && (if t.phase.Closed? && !b.phase.Closed? then t.halfOpen == 0 && t.log == []
                else t.halfOpen >= b.halfOpen && t.log == b.log + Outcomes([e]))
  {
    assert Outcomes([e]) == (match e case Allow(_) => [] case Success => [true] case Failure(_) => [false]) + Outcomes([e][1..]);
  }

  /** The outcomes reported by a list of events, in order; true is a success. */
  function Outcomes(es: seq<Event>): seq<bool> {
    if es == [] then []
    else (match es[0] case Allow(_) => [] case Success => [true] case Failure(_) => [false]) + Outcomes(es[1..])
  }

  /** The breaker is Closed before each of the events. */
  ghost predicate ClosedThrough(c: Config, b: Breaker, es: seq<Event>)
    requires c.window > 0
    decreases |es|
  {
    es == [] || (b.phase.Closed? && ClosedThrough(c, Step(c, b, es[0]), es[1..]))
  }

  /** While it is Closed the breaker remembers exactly the outcomes reported. */
  lemma {:induction false} ClosedRemembers(c: Config, b: Breaker, es: seq<Event>)
    requires c.window > 0 && ClosedThrough(c, b, es)
    ensures Run(c, b, es).log == b.log + Outcomes(es)
    decreases |es|
  {
    if es != [] {
      var b1 := Step(c, b, es[0]);
      ClosedRemembers(c, b1, es[1..]);
      PhaseMovesExactly(c, b, es[0]);
      assert b1.log + Outcomes(es[1..]) == b.log + Outcomes(es);
    }
  }

  lemma {:induction false} RunSnoc(c: Config, b: Breaker, es: seq<Event>, e: Event)
    requires c.window > 0
    ensures Run(c, b, es + [e]) == Step(c, Run(c, b, es), e)
    decreases |es|
  {
    if es == [] {
      assert ([] + [e])[1..] == [];
    } else {
      assert (es + [e])[0] == es[0] && (es + [e])[1..] == es[1..] + [e];
      RunSnoc(c, Step(c, b, es[0]), es[1..], e);
    }
  }

  /**
   Over runs: a breaker that is new or has just been closed, and that has stayed Closed through the
   events es since, opens on the next one exactly when that is a failure and, of the last window
   outcomes reported, at least minCalls in number, at least ratioPercent in a hundred are failures.
   */
  lemma {:induction false} RunOpensExactly(c: Config, b: Breaker, es: seq<Event>, e: Event)
    requires c.window > 0 && b.log == [] && ClosedThrough(c, b, es) && Run(c, b, es).phase.Closed?
    ensures Run(c, b, es + [e]).phase.Open? <==> e.Failure? && WindowMeets(c, Outcomes(es) + [false])
  {
    var t := Run(c, b, es);
    ClosedRemembers(c, b, es);
    assert t.log == Outcomes(es);
    RunSnoc(c, b, es, e);
    ClosedOpensExactly(c, t, e);
  }

  // ----- opening -----

  /** The positions from lo on that hold a failure. */
  ghost function FailuresFrom(log: seq<bool>, lo: nat): set<nat> { set i: nat | lo <= i < |log| && !log[i] }

  /** The last window positions of the log hold at least minCalls outcomes, at least ratioPercent in a hundred of them failures. */
  ghost predicate WindowMeets(c: Config, log: seq<bool>)
    requires c.window > 0
  {
    var lo := if |log| <= c.window then 0 else |log| - c.window;
    |log| - lo >= c.minCalls && 100 * |FailuresFrom(log, lo)| >= (|log| - lo) * c.ratioPercent
  }

  lemma {:induction false} CountIsSize(log: seq<bool>, lo: nat)
    requires lo <= |log|
    ensures Count(log[lo..], false) == |FailuresFrom(log, lo)|
    decreases |log| - lo
  {
    if lo < |log| {
      CountIsSize(log, lo + 1);
      assert log[lo..][1..] == log[lo + 1..];
      var rest := FailuresFrom(log, lo + 1);
      assert FailuresFrom(log, lo) == if log[lo] then rest else rest + {lo};
    } else {
      assert FailuresFrom(log, lo) == {};
    }
  }

  /**
   A closed breaker opens on a failure, and on nothing else, exactly when the outcomes at the last
   window positions number at least minCalls and at least ratioPercent in a hundred are failures.
   */
  lemma ClosedOpensExactly(c: Config, b: Breaker, e: Event)
    requires c.window > 0 && b.phase.Closed?
    ensures Step(c, b, e).phase.Open? <==> e.Failure? && WindowMeets(c, b.log + [false])
  {
    var log := b.log + [false];
    var lo := if |log| <= c.window then 0 else |log| - c.window;
    CountIsSize(log, lo);
    assert Recent(log, c.window) == log[lo..];
  }

  function FailureCount(es: seq<Event>): nat {
    if es == [] then 0 else (if es[0].Failure? then 1 else 0) + FailureCount(es[1..])
  }

  /** The last k outcomes were failures. */
  ghost predicate EndsInFailures(log: seq<bool>, k: nat) {
    k <= |log| && forall i :: |log| - k <= i < |log| ==> !log[i]
  }

  lemma {:induction false} CountAll(s: seq<bool>, v: bool)
    requires forall i :: 0 <= i < |s| ==> s[i] == v
    ensures Count(s, v) == |s| && Count(s, !v) == 0
  {
    if s != [] { CountAll(s[1..], v); }
  }

  /** A full window of failures meets every clamped threshold. */
  lemma FullWindowOpens(c: Config, log: seq<bool>)
    requires Clamped(c) && EndsInFailures(log, c.window)
    ensures ShouldOpen(c, log)
  {
    CountAll(Recent(log, c.window), false);
    assert c.window * 100 >= c.window * c.ratioPercent;
  }

  /** Without a reported success, a window's worth of failures takes a closed breaker out of Closed. */
  lemma {:induction false} FailuresOpen(c: Config, b: Breaker, es: seq<Event>, k: nat)
    requires Clamped(c) && b.phase.Closed? && EndsInFailures(b.log, k) && k < c.window
    requires Success !in es && k + FailureCount(es) >= c.window
    ensures !Run(c, b, es).phase.Closed?
    decreases |es|
  {
    var b1 := Step(c, b, es[0]);
    if es[0].Failure? {
      if EndsInFailures(b1.log, c.window) { FullWindowOpens(c, b1.log); }
      if b1.phase.Closed? { FailuresOpen(c, b1, es[1..], k + 1); } else { StaysOut(c, b1, es[1..]); }
    } else {
      FailuresOpen(c, b1, es[1..], k);
    }
  }

  lemma {:induction false} StaysOut(c: Config, b: Breaker, es: seq<Event>)
    requires c.window > 0 && !b.phase.Closed? && Success !in es
    ensures !Run(c, b, es).phase.Closed?
    decreases |es|
  {
    if es != [] { StaysOut(c, Step(c, b, es[0]), es[1..]); }
  }

  /** Whatever the configuration given, window-size failures with no success between them open a closed breaker. */
  lemma ClampsGuaranteeOpening(raw: Config, b: Breaker, es: seq<Event>)
    requires b.phase.Closed? && Success !in es && FailureCount(es) >= Clamp(raw).window
    ensures !Run(Clamp(raw), b, es).phase.Closed?
  {
    FailuresOpen(Clamp(raw), b, es, 0);
  }

  // ----- cooling down -----

  predicate Early(es: seq<Event>, deadline: int) {
    forall i :: 0 <= i < |es| ==> es[i] != Success && (es[i].Allow? ==> es[i].now < deadline)
  }

  /** Once open, nothing is admitted until openTime has passed, unless a late success closes the breaker. */
  lemma {:induction false} OpenRefuses(c: Config, b: Breaker, es: seq<Event>, i: nat)
    requires c.window > 0 && b.phase.Open? && i < |es|
    requires Early(es[..i + 1], b.openedSince + c.openTime) && es[i].Allow?
    ensures var s := Run(c, b, es[..i]);
            s.phase.Open? && s.openedSince == b.openedSince && !Admits(c, s, es[i].now)
  {
    assert es[..i + 1][i] == es[i];
    assert forall j :: 0 <= j < i ==> es[..i][j] == es[..i + 1][j];
    StaysOpen(c, b, es[..i]);
  }

  /**
   The cool-down by event times: after the failure at time at that opened a breaker, and as long as
   no success comes and no request has been late enough, a request is admitted exactly from
   at + openTime on. Later failures do not prolong it.
   */
  lemma {:induction false} CoolDownExact(c: Config, b: Breaker, at: int, es: seq<Event>, i: nat)
    requires c.window > 0 && !b.phase.Open? && Step(c, b, Failure(at)).phase.Open?
    requires i < |es| && es[i].Allow? && Early(es[..i], at + c.openTime)
    ensures Admits(c, Run(c, Step(c, b, Failure(at)), es[..i]), es[i].now) <==> es[i].now >= at + c.openTime
  {
    StaysOpen(c, Step(c, b, Failure(at)), es[..i]);
  }

  lemma {:induction false} StaysOpen(c: Config, b: Breaker, es: seq<Event>)
    requires c.window > 0 && b.phase.Open? && Early(es, b.openedSince + c.openTime)
    ensures var t := Run(c, b, es); t.phase.Open? && t.openedSince == b.openedSince
    decreases |es|
  {
    if es != [] {
      assert forall j :: 0 <= j < |es[1..]| ==> es[1..][j] == es[j + 1];
      StaysOpen(c, Step(c, b, es[0]), es[1..]);
    }
  }

  // ----- probes -----

  /** A run together with the half-open episodes and admitted probes since the breaker last closed. */
  datatype Tally = Tally(b: Breaker, episodes: nat, probes: nat)

  function TallyStep(c: Config, t: Tally, e: Event): Tally
    requires c.window > 0
  {
    var b1 := Step(c, t.b, e);
    if b1.phase.Closed? then Tally(b1, 0, 0)
    else
      var entered := b1.phase.HalfOpen? && !t.b.phase.HalfOpen?;
      var probe := e.Allow? && Admits(c, t.b, e.now);
      Tally(b1, t.episodes + (if entered then 1 else 0), t.probes + (if probe then 1 else 0))
  }

  function TallyRun(c: Config, t: Tally, es: seq<Event>): Tally
    requires c.window > 0
    decreases |es|
  {
    if es == [] then t else TallyRun(c, TallyStep(c, t, es[0]), es[1..])
  }

  ghost predicate TallyInv(c: Config, t: Tally) {
    && t.probes == t.b.halfOpen
    && (t.b.phase.HalfOpen? ==> t.episodes >= 1)
    && t.probes <= t.episodes + (if c.halfOpenMax > 1 then c.halfOpenMax - 1 else 0)
  }

  lemma {:induction false} TallyKeeps(c: Config, t: Tally, es: seq<Event>)
    requires c.window > 0 && TallyInv(c, t) && (t.b.phase.Closed? ==> t.episodes == t.probes == 0)
    ensures TallyInv(c, TallyRun(c, t, es))
    decreases |es|
  {
    if es != [] { TallyKeeps(c, TallyStep(c, t, es[0]), es[1..]); }
  }

  /** The half-open counter is the number of probes since the last close, and a failed probe does not refill the quota. */
  lemma ProbeBound(raw: Config, es: seq<Event>)
    ensures var c := Clamp(raw);
            var t := TallyRun(c, Tally(FRESH, 0, 0), es);
            && t.b == Run(c, FRESH, es)
            && t.probes == t.b.halfOpen
            && t.probes <= t.episodes + (if c.halfOpenMax > 1 then c.halfOpenMax - 1 else 0)
  {
    TallyKeeps(Clamp(raw), Tally(FRESH, 0, 0), es);
    TallyFollows(Clamp(raw), Tally(FRESH, 0, 0), es);
  }

  lemma {:induction false} TallyFollows(c: Config, t: Tally, es: seq<Event>)
    requires c.window > 0
    ensures TallyRun(c, t, es).b == Run(c, t.b, es)
    decreases |es|
  {
    if es != [] { TallyFollows(c, TallyStep(c, t, es[0]), es[1..]); }
  }

  // ----- one half-open episode -----

  /** How many requests of a series of events are admitted. */
  function AdmittedIn(c: Config, b: Breaker, es: seq<Event>): nat
    requires c.window > 0
    decreases |es|
  {
    if es == [] then 0
    else (if es[0].Allow? && Admits(c, b, es[0].now) then 1 else 0) + AdmittedIn(c, Step(c, b, es[0]), es[1..])
  }

  predicate OnlyRequests(es: seq<Event>) { forall i :: 0 <= i < |es| ==> es[i].Allow? }

  /** The events under which a half-open breaker stays half open are requests and nothing else. */
  lemma EpisodeEndsOnOutcome(c: Config, b: Breaker, e: Event)
    requires c.window > 0 && b.phase.HalfOpen?
    ensures Step(c, b, e).phase.HalfOpen? <==> e.Allow?
  {
  }

  lemma {:induction false} QuotaLeft(c: Config, b: Breaker, es: seq<Event>)
    requires c.window > 0 && b.phase.HalfOpen? && OnlyRequests(es)
    ensures var left := if b.halfOpen < c.halfOpenMax then c.halfOpenMax - b.halfOpen else 0;
            && AdmittedIn(c, b, es) == (if |es| < left then |es| else left)
            && Run(c, b, es) == b.(halfOpen := b.halfOpen + AdmittedIn(c, b, es))
    decreases |es|
  {
    if es != [] {
      assert forall i :: 0 <= i < |es[1..]| ==> es[1..][i] == es[i + 1];
      QuotaLeft(c, Step(c, b, es[0]), es[1..]);
    }
  }

  /**
   An episode entered with counter h admits its first request and then as many more as fit under
   the quota: max(1, halfOpenMax - h) in all, if that many are made. No failed probe of an earlier
   episode is given back.
   */
  lemma EpisodeAdmits(c: Config, b: Breaker, es: seq<Event>)
    requires c.window > 0 && b.phase.Open? && OnlyRequests(es) && es != [] && Admits(c, b, es[0].now)
    ensures var quota := if c.halfOpenMax - b.halfOpen > 1 then c.halfOpenMax - b.halfOpen else 1;
            && AdmittedIn(c, b, es) == (if |es| < quota then |es| else quota)
            && Run(c, b, es) == b.(phase := HalfOpen, halfOpen := b.halfOpen + AdmittedIn(c, b, es))
  {
    assert forall i :: 0 <= i < |es[1..]| ==> es[1..][i] == es[i + 1];
    QuotaLeft(c, Step(c, b, es[0]), es[1..]);
  }
}
