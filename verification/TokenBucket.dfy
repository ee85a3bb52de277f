/**
 The token bucket that limits requests to a provider. Clock samples are taken before the lock,
 so they may reach the bucket out of order. Arithmetic is over the reals.
 */
module TokenBucketModel {

  datatype Bucket = Bucket(rate: real, burst: real, tokens: real, last: real)

  /** The token count a call stamped now finds, after refill and cap. */
  function Refilled(b: Bucket, now: real): real {
    var t := b.tokens + (now - b.last) * b.rate;
    if t > b.burst then b.burst else t
  }

  predicate Admitted(b: Bucket, now: real) { Refilled(b, now) >= 1.0 }

  function After(b: Bucket, now: real): Bucket {
    b.(tokens := Refilled(b, now) - (if Admitted(b, now) then 1.0 else 0.0), last := now)
  }

  function Fresh(rate: real, burst: real, t0: real): Bucket { Bucket(rate, burst, burst, t0) }

  function Run(b: Bucket, stamps: seq<real>): Bucket
    decreases |stamps|
  {
    if stamps == [] then b else Run(After(b, stamps[0]), stamps[1..])
  }

  /** How many of a series of calls are admitted. */
  function AdmittedCount(b: Bucket, stamps: seq<real>): nat
    decreases |stamps|
  {
    if stamps == [] then 0
    else (if Admitted(b, stamps[0]) then 1 else 0) + AdmittedCount(After(b, stamps[0]), stamps[1..])
  }

  class TokenBucket {
    const rate: real
    const burst: real
    var tokens: real
    var lastRefill: real

    ghost function Abs(): Bucket
      reads this
    {
      Bucket(rate, burst, tokens, lastRefill)
    }

    constructor (rate: real, burst: real, now: real)
      ensures Abs() == Fresh(rate, burst, now)
    {
      this.rate, this.burst, tokens, lastRefill := rate, burst, burst, now;
    }

    method Allow(now: real) returns (ok: bool)
      modifies this
      ensures ok == Admitted(old(Abs()), now) && Abs() == After(old(Abs()), now)
    {
      var elapsed := now - lastRefill;
      tokens := tokens + elapsed * rate;
      if tokens > burst { tokens := burst; }
      assert tokens == Refilled(old(Abs()), now);
      lastRefill := now;
      ok := false;
      if tokens >= 1.0 {
        tokens := tokens - 1.0;
        ok := true;
      }
    }
  }

  // ----- rate bound -----

  /** Tokens net of the refill due up to the last stamp: refilling leaves it, capping and admitting lower it. */
  function Credit(b: Bucket): real { b.tokens - b.rate * b.last }

  lemma NonNegativeProduct(x: real, y: real)
    requires x >= 0.0 && y >= 0.0
    ensures x * y >= 0.0
  {
  }

  lemma Distribute(r: real, x: real, y: real)
    ensures r * (x - y) == r * x - r * y == (x - y) * r
  {
  }

  lemma CreditStep(b: Bucket, now: real)
    ensures Credit(After(b, now)) <= Credit(b) - (if Admitted(b, now) then 1.0 else 0.0)
  {
    Distribute(b.rate, now, b.last);
  }

  lemma {:induction false} CreditRun(b: Bucket, stamps: seq<real>)
    ensures Credit(Run(b, stamps)) <= Credit(b) - AdmittedCount(b, stamps) as real
    ensures Run(b, stamps).rate == b.rate && Run(b, stamps).burst == b.burst
    decreases |stamps|
  {
    if stamps != [] {
      CreditStep(b, stamps[0]);
      CreditRun(After(b, stamps[0]), stamps[1..]);
    }
  }

  lemma AfterAdmitted(b: Bucket, t: real)
    requires Admitted(b, t)
    ensures After(b, t).tokens >= 0.0 && After(b, t).last == t
  {
  }

  lemma {:induction false} AdmittedEnd(b: Bucket, stamps: seq<real>, t: real)
    requires Admitted(Run(b, stamps), t)
    ensures var e := Run(b, stamps + [t]); e.tokens >= 0.0 && e.last == t
    decreases |stamps|
  {
    if stamps == [] {
      AfterAdmitted(b, t);
      assert [] + [t] == [t] && [t][1..] == [];
      assert Run(b, [t]) == Run(After(b, t), []);
    } else {
      AdmittedEnd(After(b, stamps[0]), stamps[1..], t);
      assert (stamps + [t])[1..] == stamps[1..] + [t];
    }
  }

  lemma BoundFromCredit(b: Bucket, e: Bucket, n: nat)
    requires Credit(e) <= Credit(b) - n as real && e.tokens >= 0.0 && e.rate == b.rate
    ensures n as real <= b.tokens + b.rate * (e.last - b.last)
  {
    Distribute(b.rate, e.last, b.last);
  }

  /** Calls admitted between a bucket last stamped b.last and an admitted call stamped t, that call included, for any order of stamps. */
  lemma {:induction false} WindowBound(b: Bucket, stamps: seq<real>, t: real)
    requires Admitted(Run(b, stamps), t)
    ensures AdmittedCount(b, stamps + [t]) as real <= b.tokens + b.rate * (t - b.last)
  {
    AdmittedEnd(b, stamps, t);
    CreditRun(b, stamps + [t]);
    BoundFromCredit(b, Run(b, stamps + [t]), AdmittedCount(b, stamps + [t]));
  }

  /** From construction at t0, the number admitted up to an admitted call stamped t is at most burst + rate * (t - t0). */
  lemma {:induction false} RateBound(rate: real, burst: real, t0: real, stamps: seq<real>, t: real)
    requires Admitted(Run(Fresh(rate, burst, t0), stamps), t)
    ensures AdmittedCount(Fresh(rate, burst, t0), stamps + [t]) as real <= burst + rate * (t - t0)
  {
    var b := Fresh(rate, burst, t0);
    assert b.tokens == burst && b.rate == rate && b.last == t0;
    WindowBound(b, stamps, t);
  }

  /** No history leaves more than burst tokens in the bucket. */
  lemma {:induction false} NeverAboveBurst(b: Bucket, stamps: seq<real>)
    requires b.tokens <= b.burst
    ensures Run(b, stamps).tokens <= b.burst && Run(b, stamps).burst == b.burst && Run(b, stamps).rate == b.rate
    decreases |stamps|
  {
    if stamps != [] { NeverAboveBurst(After(b, stamps[0]), stamps[1..]); }
  }

  /** Of these calls, the last stamped t, at most burst + rate * (t - the stamp before them) are admitted. */
  ghost predicate WithinLimit(b: Bucket, stamps: seq<real>, t: real) {
    AdmittedCount(b, stamps) as real <= b.burst + b.rate * (t - b.last)
  }

  /**
   The limit over every window, not only from the start: after any history, the calls admitted up
   to an admitted one stamped t stay within burst and rate from the last stamp of that history.
   */
  lemma {:induction false} SlidingWindowBound(b: Bucket, before: seq<real>, stamps: seq<real>, t: real)
    requires b.tokens <= b.burst && Admitted(Run(Run(b, before), stamps), t)
    ensures var r := Run(b, before);
            r.rate == b.rate && r.burst == b.burst && WithinLimit(r, stamps + [t], t)
  {
    NeverAboveBurst(b, before);
    CappedWindow(Run(b, before), stamps, t);
  }

  lemma {:induction false} CappedWindow(b: Bucket, stamps: seq<real>, t: real)
    requires b.tokens <= b.burst && Admitted(Run(b, stamps), t)
    ensures WithinLimit(b, stamps + [t], t)
  {
    WindowBound(b, stamps, t);
  }

  /** Stamps that never go back. */
  ghost predicate Ordered(last: real, stamps: seq<real>)
    decreases |stamps|
  {
    stamps == [] || (last <= stamps[0] && Ordered(stamps[0], stamps[1..]))
  }

  lemma RefillsUpward(b: Bucket, now: real)
    requires b.rate >= 0.0 && b.last <= now && b.tokens <= b.burst
    ensures Refilled(b, now) >= b.tokens
  {
    RefilledIs(b, now);
    AccruedSign(b.rate, b.last, now);
  }

  /** With ordered stamps a bucket admits at once as many calls as it holds whole tokens. */
  lemma {:induction false} HeldTokensAdmit(b: Bucket, stamps: seq<real>)
    requires b.rate >= 0.0 && b.tokens <= b.burst && Ordered(b.last, stamps) && |stamps| as real <= b.tokens
    ensures AdmittedCount(b, stamps) == |stamps|
    decreases |stamps|
  {
    if stamps != [] {
      RefillsUpward(b, stamps[0]);
      HeldTokensAdmit(After(b, stamps[0]), stamps[1..]);
    }
  }

  /** A new bucket admits its whole burst. */
  lemma FreshAdmitsBurst(rate: real, burst: real, t0: real, stamps: seq<real>)
    requires rate >= 0.0 && Ordered(t0, stamps) && |stamps| as real <= burst
    ensures AdmittedCount(Fresh(rate, burst, t0), stamps) == |stamps|
  {
    HeldTokensAdmit(Fresh(rate, burst, t0), stamps);
  }

  // ----- retry hint -----

  /** Suggested wait in milliseconds; the cast cuts toward zero, which is down for a positive rate. */
  function RetryAfterMs(rate: real): int
    requires rate > 0.0
  {
    (1000.0 / rate).Floor + 1
  }

  /** The newest of the construction time and the samples that reached the lock. */
  function Newest(t0: real, stamps: seq<real>): real
    decreases |stamps|
  {
    if stamps == [] then t0
    else Newest(if stamps[0] > t0 then stamps[0] else t0, stamps[1..])
  }

  /** Tokens generated from one time to another. */
  function Accrued(rate: real, from: real, to: real): real { (to - from) * rate }

  lemma AccruedSign(rate: real, from: real, to: real)
    requires rate >= 0.0 && from <= to
    ensures Accrued(rate, from, to) >= 0.0
  {
    NonNegativeProduct(to - from, rate);
  }

  lemma AccruedAdds(rate: real, x: real, y: real, z: real)
    ensures Accrued(rate, x, y) + Accrued(rate, y, z) == Accrued(rate, x, z)
  {
  }

  lemma RefilledIs(b: Bucket, now: real)
    ensures var found := b.tokens + Accrued(b.rate, b.last, now);
            Refilled(b, now) == if found > b.burst then b.burst else found
  {
  }

  /** What the bucket would hold had it been refilled up to the newest sample and never capped. */
  function UpTo(b: Bucket, newest: real): real { b.tokens + Accrued(b.rate, b.last, newest) }

  /** A call stamped now, stale or not, leaves no debt at the newest sample. */
  lemma NoDebtStep(b: Bucket, newest: real, now: real)
    requires b.rate >= 0.0 && b.burst >= 0.0 && UpTo(b, newest) >= 0.0
    ensures UpTo(After(b, now), if now > newest then now else newest) >= 0.0
  {
    var top := if now > newest then now else newest;
    RefilledIs(b, now);
    AccruedSign(b.rate, now, top);
    AccruedSign(b.rate, newest, top);
    AccruedAdds(b.rate, b.last, now, top);
    AccruedAdds(b.rate, b.last, newest, top);
  }

  lemma {:induction false} NoDebt(b: Bucket, newest: real, stamps: seq<real>)
    requires b.rate >= 0.0 && b.burst >= 0.0 && UpTo(b, newest) >= 0.0
    ensures var e := Run(b, stamps);
            UpTo(e, Newest(newest, stamps)) >= 0.0 && e.rate == b.rate && e.burst == b.burst
    decreases |stamps|
  {
    if stamps != [] {
      NoDebtStep(b, newest, stamps[0]);
      NoDebt(After(b, stamps[0]), if stamps[0] > newest then stamps[0] else newest, stamps[1..]);
    }
  }

  lemma WaitRefills(rate: real, wait: real)
    requires rate > 0.0 && wait * 1000.0 >= RetryAfterMs(rate) as real
    ensures wait * rate >= 1.0
  {
    var q := 1000.0 / rate;
    assert q * rate == 1000.0;
    NonNegativeProduct(wait * 1000.0 - q, rate);
    Distribute(rate, wait * 1000.0, q);
  }

  /** A bucket without debt at the newest sample admits a call stamped at least the hint after that sample. */
  lemma RetryAdmits(b: Bucket, newest: real, t: real)
    requires b.rate > 0.0 && b.burst >= 1.0 && UpTo(b, newest) >= 0.0
    requires (t - newest) * 1000.0 >= RetryAfterMs(b.rate) as real
    ensures Admitted(b, t)
  {
    RefilledIs(b, t);
    WaitRefills(b.rate, t - newest);
    AccruedAdds(b.rate, b.last, newest, t);
  }

  /**
   Waiting as advised guarantees admission after any history, in whatever order its samples reached
   the lock: the wait of a refused caller starts no earlier than the newest of them.
   */
  lemma RetryAfterGuarantees(rate: real, burst: real, t0: real, stamps: seq<real>, t: real)
    requires rate > 0.0 && burst >= 1.0
    requires (t - Newest(t0, stamps)) * 1000.0 >= RetryAfterMs(rate) as real
    ensures Admitted(Run(Fresh(rate, burst, t0), stamps), t)
  {
    NoDebt(Fresh(rate, burst, t0), t0, stamps);
    RetryAdmits(Run(Fresh(rate, burst, t0), stamps), Newest(t0, stamps), t);
  }

  /** Newest is the latest of the construction time and the samples. */
  lemma {:induction false} NewestIsLatest(t0: real, stamps: seq<real>)
    ensures Newest(t0, stamps) >= t0 && forall i :: 0 <= i < |stamps| ==> stamps[i] <= Newest(t0, stamps)
    ensures Newest(t0, stamps) == t0 || Newest(t0, stamps) in stamps
    decreases |stamps|
  {
    if stamps != [] {
      NewestIsLatest(if stamps[0] > t0 then stamps[0] else t0, stamps[1..]);
      assert forall i :: 1 <= i < |stamps| ==> stamps[i] == stamps[1..][i - 1];
    }
  }

  /** The hint is the least whole number of milliseconds above the time one token takes: an empty bucket refuses two less. */
  lemma HintIsTight(rate: real, burst: real, last: real, ms: int)
    requires rate > 0.0 && ms <= RetryAfterMs(rate) - 2
    ensures !Admitted(Bucket(rate, burst, 0.0, last), last + ms as real / 1000.0)
  {
    var b, wait := Bucket(rate, burst, 0.0, last), ms as real / 1000.0;
    var q := 1000.0 / rate;
    assert q * rate == 1000.0 && ms as real < q;
    ShortWait(rate, ms as real, q);
    RefilledIs(b, last + wait);
    assert Accrued(rate, last, last + wait) == wait * rate;
    assert wait * 1000.0 == ms as real;
    ScaledWait(wait, rate, ms as real);
  }

  lemma ShortWait(rate: real, ms: real, q: real)
    requires rate > 0.0 && ms < q
    ensures ms * rate < q * rate
  {
    assert (q - ms) * rate > 0.0;
    Distribute(rate, q, ms);
  }

  lemma ScaledWait(wait: real, rate: real, ms: real)
    requires wait * 1000.0 == ms
    ensures wait * rate * 1000.0 == ms * rate
  {
    assert wait * rate * 1000.0 == (wait * 1000.0) * rate;
  }
}
