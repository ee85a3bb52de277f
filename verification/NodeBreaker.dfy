/**
 NodeBreaker: the breaker as the code keeps it, with the outcomes in a circular window and two
 running counters, proved to behave as the plain-list breaker of module Breaker.
 */
module NodeBreakerModel {
  import opened Arith
  import B = Breaker

  type Slot = int
  const EMPTY: Slot := -1
  const FAILED: Slot := 0
  const SUCCEEDED: Slot := 1

  function Coded(v: bool): Slot { if v then SUCCEEDED else FAILED }

  /** The window holds the last outcomes of the log, each in the slot its position selects; unused slots are empty. */
  ghost predicate Holds(window: seq<Slot>, log: seq<bool>) {
    && |window| > 0
    && (forall k: nat :: |log| - |window| <= k < |log| ==> window[Off(k, |window|)] == Coded(log[k]))
    && forall i :: |log| <= i < |window| ==> window[i] == EMPTY
  }

  lemma {:induction false} CountAppend(s: seq<bool>, x: bool, v: bool)
    ensures B.Count(s + [x], v) == B.Count(s, v) + (if x == v then 1 else 0)
  {
    if s == [] {
      assert [] + [x] == [x];
    } else {
      CountAppend(s[1..], x, v);
      assert (s + [x])[1..] == s[1..] + [x];
    }
  }

  lemma {:induction false} CountSplit(s: seq<bool>)
    ensures B.Count(s, true) + B.Count(s, false) == |s|
  {
    if s != [] { CountSplit(s[1..]); }
  }

  /** One more outcome: the newest enters the view and, once the window is full, the oldest leaves it. */
  lemma RecentCount(log: seq<bool>, x: bool, w: nat, v: bool)
    requires w > 0
    ensures B.Count(B.Recent(log + [x], w), v) + (if |log| >= w && log[|log| - w] == v then 1 else 0)
            == B.Count(B.Recent(log, w), v) + (if x == v then 1 else 0)
  {
    if |log| < w {
      CountAppend(log, x, v);
    } else {
      RecentSlides(log, x, w);
      CountAppend(B.Recent(log, w)[1..], x, v);
    }
  }

  lemma RecentSlides(log: seq<bool>, x: bool, w: nat)
    requires 0 < w <= |log|
    ensures |B.Recent(log, w)| == w && B.Recent(log, w)[0] == log[|log| - w]
    ensures B.Recent(log + [x], w) == B.Recent(log, w)[1..] + [x]
  {
  }

  /** The slot about to be overwritten is the outcome that leaves the view, or empty. */
  lemma OldestSlot(window: seq<Slot>, log: seq<bool>)
    requires Holds(window, log)
    ensures var w := |window|;
            window[Off(|log|, w)] == if |log| >= w then Coded(log[|log| - w]) else EMPTY
  {
    if |log| >= |window| { assert Off(|log|, |window|) == Off(|log| - |window|, |window|); }
  }

  lemma HoldsStep(window: seq<Slot>, log: seq<bool>, x: bool)
    requires Holds(window, log)
    ensures Holds(window[Off(|log|, |window|) := Coded(x)], log + [x])
  {
    var w, n := |window|, |log|;
    forall k: nat | n + 1 - w <= k < n + 1
      ensures window[Off(n, w) := Coded(x)][Off(k, w)] == Coded((log + [x])[k])
    {
      if k < n { OffDistinct(k, n, w); }
    }
  }

  /** The next slot, going around. */
  function Succ(p: nat, w: nat): nat
    requires p < w
  {
    if p + 1 == w then 0 else p + 1
  }

  lemma OffSucc(n: nat, w: nat)
    requires w > 0
    ensures Off(n + 1, w) == Succ(Off(n, w), w)
  {
    if Off(n, w) + 1 < w { OffNext(n, 1, w); } else { OffWrap(n, w); }
  }

  /** How many of an outcome the overwritten slot accounts for. */
  function Leaving(slot: Slot, v: bool): int { if slot == Coded(v) then 1 else 0 }

  /** All that recording one outcome changes: the slots, the position and the counts. */
  lemma RecordStep(window: seq<Slot>, log: seq<bool>, x: bool)
    requires Holds(window, log)
    ensures var w, p := |window|, Off(|log|, |window|);
            && Holds(window[p := Coded(x)], log + [x]) && Succ(p, w) == Off(|log| + 1, w)
            && B.Count(B.Recent(log + [x], w), true) == B.Count(B.Recent(log, w), true) - Leaving(window[p], true) + (if x then 1 else 0)
            && B.Count(B.Recent(log + [x], w), false) == B.Count(B.Recent(log, w), false) - Leaving(window[p], false) + (if x then 0 else 1)
  {
    OldestSlot(window, log);
    HoldsStep(window, log, x);
    OffSucc(|log|, |window|);
    RecentCount(log, x, |window|, false);
    RecentCount(log, x, |window|, true);
  }

  class NodeBreaker {
    const cfg: B.Config
    var phase: B.Phase
    var halfOpen: int
    var failures: int          // reported status: outcomes in the window
    var successes: int
    var openedAt: int          // wall clock, persisted
    var openedSince: int       // steady clock
    const window: array<Slot>
    var pos: nat
    var windowFailures: int
    var windowSuccesses: int
    ghost var log: seq<bool>

    ghost predicate Valid()
      reads this, window
    {
      && B.Clamped(cfg) && window.Length == cfg.window
      && Holds(window[..], log) && pos == Off(|log|, window.Length)
      && failures == windowFailures == B.Count(B.Recent(log, window.Length), false)
      && successes == windowSuccesses == B.Count(B.Recent(log, window.Length), true)
    }

    ghost function Abs(): B.Breaker
      reads this
    {
      B.Breaker(phase, halfOpen, openedSince, log)
    }

    constructor (raw: B.Config)
      ensures Valid() && fresh(window) && cfg == B.Clamp(raw)
      ensures phase == B.Closed && halfOpen == 0 && log == []
    {
      cfg := B.Clamp(raw);
      phase, halfOpen, failures, successes, openedAt, openedSince := B.Closed, 0, 0, 0, 0, 0;
      pos, windowFailures, windowSuccesses, log := 0, 0, 0, [];
      window := new Slot[B.Clamp(raw).window](_ => EMPTY);
    }

    method Record(success: bool)
      requires Valid()
      modifies window, this`pos, this`windowFailures, this`windowSuccesses, this`failures, this`successes, this`log
      ensures Valid() && log == old(log) + [success]
    {
      RecordStep(window[..], log, success);
      Recount(window[pos], success);
      Overwrite(if success then SUCCEEDED else FAILED);
      Advance();
      failures, successes := windowFailures, windowSuccesses;
      log := log + [success];
    }

    /** The counters lose the overwritten outcome and gain the new one. */
    method Recount(slot: Slot, success: bool)
      modifies this`windowFailures, this`windowSuccesses
      ensures windowFailures == old(windowFailures) - Leaving(slot, false) + (if success then 0 else 1)
      ensures windowSuccesses == old(windowSuccesses) - Leaving(slot, true) + (if success then 1 else 0)
    {
      if slot == FAILED { windowFailures := windowFailures - 1; }
      else if slot == SUCCEEDED { windowSuccesses := windowSuccesses - 1; }
      if success { windowSuccesses := windowSuccesses + 1; } else { windowFailures := windowFailures + 1; }
    }

    method Advance()
      requires pos < window.Length
      modifies this`pos
      ensures pos == Succ(old(pos), window.Length)
    {
      ModOneLap(pos + 1, window.Length);
      pos := (pos + 1) % window.Length;
    }

    method Overwrite(v: Slot)
      requires pos < window.Length
      modifies window
      ensures window[..] == old(window[..])[pos := v]
    {
      window[pos] := v;
    }

    method ClearWindow()
      requires Valid()
      modifies window, this`pos, this`windowFailures, this`windowSuccesses, this`failures, this`successes, this`log
      ensures Valid() && log == []
    {
      forall i | 0 <= i < window.Length { window[i] := EMPTY; }
      pos, windowFailures, windowSuccesses, failures, successes := 0, 0, 0, 0, 0;
      log := [];
    }

    /** The counters decide as the plain list of the last outcomes would. */
    method ShouldOpen() returns (open: bool)
      requires Valid()
      ensures open == B.ShouldOpen(cfg, log)
    {
      CountSplit(B.Recent(log, window.Length));
      var total := windowFailures + windowSuccesses;
      if total < cfg.minCalls { return false; }
      open := windowFailures * 100 >= total * cfg.ratioPercent;
    }

    method AllowRequest(now: int) returns (admitted: bool)
      requires Valid()
      modifies this`phase, this`halfOpen
      ensures Valid() && admitted == B.Admits(cfg, old(Abs()), now)
      ensures Abs() == B.Step(cfg, old(Abs()), B.Allow(now))
    {
      match phase
      case Closed => return true;
      case Open =>
        admitted := now - openedSince >= cfg.openTime;
        if admitted { Probe(); }
      case HalfOpen =>
        admitted := halfOpen < cfg.halfOpenMax;
        if admitted { Probe(); }
    }

    /** One more probe of a half-open breaker. */
    method Probe()
      requires Valid()
      modifies this`phase, this`halfOpen
      ensures Valid() && phase == B.HalfOpen && halfOpen == old(halfOpen) + 1
    {
      phase, halfOpen := B.HalfOpen, halfOpen + 1;
    }

    method OnSuccess() returns (changed: bool)
      requires Valid()
      modifies this, window
      ensures Valid() && Abs() == B.Step(cfg, old(Abs()), B.Success) && changed == (phase != old(phase))
    {
      Record(true);
      if phase.Closed? { return false; }
      ClearWindow();
      halfOpen := 0;
      phase := B.Closed;
      return true;
    }

    method OnFailure(now: int, wall: int) returns (changed: bool)
      requires Valid()
      modifies this, window
      ensures Valid() && Abs() == B.Step(cfg, old(Abs()), B.Failure(now)) && changed == (phase != old(phase))
      ensures openedAt == if changed then wall else old(openedAt)
    {
      Record(false);
      changed := Opens();
      if changed { MarkOpen(now, wall); }
    }

    method MarkOpen(now: int, wall: int)
      requires Valid()
      modifies this`phase, this`openedSince, this`openedAt
      ensures Valid() && phase == B.Open && openedSince == now && openedAt == wall
    {
      phase, openedSince, openedAt := B.Open, now, wall;
    }

    method Opens() returns (opens: bool)
      requires Valid()
      ensures opens == B.Opens(cfg, phase, log)
    {
      opens := phase.HalfOpen?;
      if phase.Closed? { opens := ShouldOpen(); }
    }

    /** loadStatus: the saved status with an empty window; an open breaker resumes its cool-down where it stood. */
    method LoadStatus(savedPhase: B.Phase, savedHalfOpen: int, savedOpenedAt: int, now: int, wall: int)
      requires Valid()
      modifies this, window
      ensures Valid() && openedAt == savedOpenedAt
      ensures var ago := if wall > savedOpenedAt then wall - savedOpenedAt else 0;
              Abs() == B.Breaker(savedPhase, savedHalfOpen, if savedPhase.Open? then now - ago else old(openedSince), [])
    {
      ClearWindow();
      Restore(savedPhase, savedHalfOpen, savedOpenedAt, now, wall);
    }

    method Restore(savedPhase: B.Phase, savedHalfOpen: int, savedOpenedAt: int, now: int, wall: int)
      requires Valid()
      modifies this`phase, this`halfOpen, this`openedAt, this`openedSince
      ensures Valid() && openedAt == savedOpenedAt && phase == savedPhase && halfOpen == savedHalfOpen
      ensures var ago := if wall > savedOpenedAt then wall - savedOpenedAt else 0;
              openedSince == if savedPhase.Open? then now - ago else old(openedSince)
    {
      phase, halfOpen, openedAt := savedPhase, savedHalfOpen, savedOpenedAt;
      if phase.Open? {
        var ago := if wall > openedAt then wall - openedAt else 0;
        openedSince := now - ago;
      }
    }
  }

  // ----- the products of shouldOpen in 32 bits -----

  const INT_MAX: int := 0x7fff_ffff

  /** Both products of shouldOpen are ints. */
  predicate ProductsFit(c: B.Config, log: seq<bool>)
    requires c.window > 0
  {
    var r := B.Recent(log, c.window);
    B.Count(r, false) * 100 <= INT_MAX && |r| * c.ratioPercent <= INT_MAX
  }

  lemma PercentBound(n: nat, percent: int, w: nat)
    requires n <= w && 1 <= percent <= 100
    ensures n * percent <= w * 100
  {
    assert n * (100 - percent) >= 0;
  }

  /** No list of outcomes overflows the products exactly when the window is at most 21 474 836. */
  lemma WindowsThatFit(c: B.Config)
    requires B.Clamped(c)
    ensures (forall log :: ProductsFit(c, log)) <==> c.window <= 21_474_836
  {
    if c.window <= 21_474_836 {
      forall log ensures ProductsFit(c, log) {
        var r := B.Recent(log, c.window);
        CountSplit(r);
        PercentBound(|r|, c.ratioPercent, c.window);
      }
    } else {
      var log := seq(c.window, _ => false);
      B.CountAll(log, false);
      assert B.Recent(log, c.window) == log;
      assert !ProductsFit(c, log);
    }
  }
}
