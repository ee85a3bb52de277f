/**
 The retry loop of a synchronous call: one candidate list per call, walked host by host, with
 the tried set cleared when every host has been tried. What an attempt meets is the environment.
 */
module RetryLoop {
  import opened Arith
  import opened HashRing

  datatype RpcError = Ok | Timeout | ConnClosed | CircuitOpen | Backoff | ServiceError

  predicate IsRetryable(e: RpcError) { e.Timeout? || e.ConnClosed? || e.CircuitOpen? || e.Backoff? }

  /** Only success and SERVICE_ERROR end the retries at once. */
  lemma RetryableExactly(e: RpcError)
    ensures IsRetryable(e) <==> e != Ok && e != ServiceError
  {
  }

  /** What one attempt comes to: no client for the host, a result, or an error. */
  datatype Outcome = NoClient | Done | Failed(err: RpcError)

  /** The loop goes on past this outcome: an error other than SERVICE_ERROR. */
  predicate GoesOn(o: Outcome) { o.Failed? && o.err != Ok && o.err != ServiceError }

  function Hosts(candidates: seq<HostDetail>): (r: seq<HostInfo>)
    ensures |r| == |candidates| && forall i :: 0 <= i < |r| ==> r[i] == candidates[i].host
  {
    seq(|candidates|, i requires 0 <= i < |candidates| => candidates[i].host)
  }

  /** First occurrences, in order. */
  function Dedup(c: seq<HostInfo>): (d: seq<HostInfo>)
    ensures forall x :: x in d <==> x in c
    ensures forall i, j :: 0 <= i < j < |d| ==> d[i] != d[j]
    ensures c != [] ==> d != [] && d[0] == c[0]
  {
    if c == [] then []
    else
      var n := |c| - 1;
      assert c == c[..n] + [c[n]];
      var d := Dedup(c[..n]);
      if c[n] in d then d else d + [c[n]]
  }

  /** Candidates without duplicates are walked as they stand. */
  lemma {:induction false} DedupDistinct(c: seq<HostInfo>)
    requires forall i, j :: 0 <= i < j < |c| ==> c[i] != c[j]
    ensures Dedup(c) == c
    decreases |c|
  {
    if c != [] {
      var n := |c| - 1;
      DedupDistinct(c[..n]);
      assert c == c[..n] + [c[n]];
    }
  }

  ghost function Elements(s: seq<HostInfo>): set<HostInfo> { set x | x in s }

  /** c[i] is the first entry outside tried. */
  ghost predicate UntriedAt(c: seq<HostInfo>, tried: set<HostInfo>, i: nat) {
    i < |c| && c[i] !in tried && forall j :: 0 <= j < i ==> c[j] in tried
  }

  /** The first candidate outside a set of leading distinct hosts is the next distinct host. */
  lemma {:induction false} NextDistinct(c: seq<HostInfo>, r: nat, k: nat)
    requires r < |Dedup(c)| && UntriedAt(c, Elements(Dedup(c)[..r]), k)
    ensures c[k] == Dedup(c)[r]
    decreases |c|
  {
    var n := |c| - 1;
    var d := Dedup(c[..n]);
    if r < |d| {
      assert Dedup(c)[..r] == d[..r];
      UntriedEarlier(c, d, r, k);
      NextDistinct(c[..n], r, k);
    } else {
      assert Dedup(c)[..r] == d;
      UntriedLast(c, d, k);
    }
  }

  /** A distinct host of the list without its last entry keeps the first untried position in front of that entry. */
  lemma UntriedEarlier(c: seq<HostInfo>, d: seq<HostInfo>, r: nat, k: nat)
    requires c != [] && r < |d| && (forall x :: x in d ==> x in c[..|c| - 1])
    requires (forall i, j :: 0 <= i < j < |d| ==> d[i] != d[j]) && UntriedAt(c, Elements(d[..r]), k)
    ensures UntriedAt(c[..|c| - 1], Elements(d[..r]), k)
  {
    assert d[r] in d && d[r] in c[..|c| - 1];
    var i :| 0 <= i < |c| - 1 && c[i] == d[r];
    assert c[i] !in Elements(d[..r]);
  }

  lemma UntriedLast(c: seq<HostInfo>, d: seq<HostInfo>, k: nat)
    requires c != [] && (forall x :: x in c[..|c| - 1] ==> x in d) && UntriedAt(c, Elements(d), k)
    ensures k == |c| - 1 && c[k] !in d
  {
    forall j | 0 <= j < |c| - 1 ensures c[j] in Elements(d) {
      assert c[j] in c[..|c| - 1];
    }
  }

  /** pickUntriedCandidate: the first host not tried yet; once all are tried, start over. */
  method PickUntried(candidates: seq<HostDetail>, tried: set<HostInfo>) returns (at: nat, left: set<HostInfo>)
    requires candidates != []
    ensures at < |candidates|
    ensures var c := Hosts(candidates);
            if Elements(c) <= tried then at == 0 && left == {} else left == tried && UntriedAt(c, tried, at)
  {
    ghost var c := Hosts(candidates);
    for i := 0 to |candidates|
      invariant forall j :: 0 <= j < i ==> c[j] in tried
    {
      if candidates[i].host !in tried {
        assert c[i] in Elements(c);
        return i, tried;
      }
    }
    return 0, {};
  }

  /** How many of n distinct hosts the tried set holds at the start of attempt k. */
  function Covered(k: nat, n: nat): (m: nat)
    requires n > 0
    ensures m <= n
  {
    if k > 0 && k % n == 0 then n else k % n
  }

  lemma CoveredNext(k: nat, n: nat)
    requires n > 0
    ensures Covered(k + 1, n) == k % n + 1
  {
    ModAddReduced(k, 1, n);
    ModOneLap(k % n + 1, n);
  }

  lemma ElementsExtend(d: seq<HostInfo>, r: nat)
    requires r < |d|
    ensures Elements(d[..r + 1]) == Elements(d[..r]) + {d[r]}
  {
    assert d[..r + 1] == d[..r] + [d[r]];
  }

  /** With the first r distinct hosts tried, or all of them and r = 0, the pick is distinct host r. */
  lemma {:induction false} PickIsNext(c: seq<HostInfo>, r: nat, m: nat, tried: set<HostInfo>, at: nat, left: set<HostInfo>)
    requires at < |c| && r < |Dedup(c)| && (m == r || (m == |Dedup(c)| && r == 0)) && tried == Elements(Dedup(c)[..m])
    requires if Elements(c) <= tried then at == 0 && left == {} else left == tried && UntriedAt(c, tried, at)
    ensures c[at] == Dedup(c)[r] && left + {c[at]} == Elements(Dedup(c)[..r + 1])
  {
    var d := Dedup(c);
    ElementsExtend(d, r);
    if m == |d| {
      assert d[..|d|] == d;
      assert Elements(c) <= tried;
    } else {
      assert d[r] in Elements(c) && d[r] !in tried;
      NextDistinct(c, r, at);
    }
  }

  /** Choosing the host of attempt k and recording it as tried. */
  method NextHost(candidates: seq<HostDetail>, tried: set<HostInfo>, ghost k: nat)
    returns (pick: HostInfo, nowTried: set<HostInfo>)
    requires candidates != []
    requires var d := Dedup(Hosts(candidates)); tried == Elements(d[..Covered(k, |d|)])
    ensures var d := Dedup(Hosts(candidates));
            pick == d[k % |d|] && nowTried == Elements(d[..Covered(k + 1, |d|)])
  {
    ghost var c := Hosts(candidates);
    ghost var n := |Dedup(c)|;
    var at, left := PickUntried(candidates, tried);
    pick := candidates[at].host;
    CoveredNext(k, n);
    PickIsNext(c, k % n, Covered(k, n), tried, at, left);
    nowTried := left + {pick};
  }

  /** Entry k of contacted is distinct host k modulo their number. */
  ghost predicate Cycles(d: seq<HostInfo>, contacted: seq<HostInfo>) {
    d != [] && forall k :: 0 <= k < |contacted| ==> contacted[k] == d[k % |d|]
  }

  lemma CyclesOn(d: seq<HostInfo>, contacted: seq<HostInfo>, pick: HostInfo)
    requires Cycles(d, contacted) && pick == d[|contacted| % |d|]
    ensures Cycles(d, contacted + [pick])
  {
  }

  /**
   The retry loop. Attempt k contacts distinct candidate k modulo their number; the loop goes on
   only past retryable errors and makes at most max(0, maxRetries) + 1 attempts.
   */
  method Call(candidates: seq<HostDetail>, maxRetries: int, env: nat -> Outcome)
    returns (ok: bool, contacted: seq<HostInfo>)
    ensures candidates == [] ==> !ok && contacted == []
    ensures candidates != [] ==> 1 <= |contacted| <= (if maxRetries > 0 then maxRetries else 0) + 1
    ensures candidates != [] ==> Cycles(Dedup(Hosts(candidates)), contacted)
    ensures forall k :: 0 <= k < |contacted| - 1 ==> GoesOn(env(k))
    ensures contacted != [] ==>
              var last := env(|contacted| - 1);
              ok == last.Done? && (GoesOn(last) ==> |contacted| > maxRetries)
  {
    contacted := [];
    if candidates == [] { return false, []; }
    ghost var c := Hosts(candidates);
    ghost var d := Dedup(c);
    var tried: set<HostInfo> := {};
    var attempt := 0;
    while true
      invariant attempt == |contacted| && (attempt > 0 ==> attempt <= maxRetries)
      invariant tried == Elements(d[..Covered(attempt, |d|)])
      invariant Cycles(d, contacted) && forall k :: 0 <= k < attempt ==> GoesOn(env(k))
      decreases (if maxRetries > 0 then maxRetries else 0) - attempt
    {
      var pick;
      pick, tried := NextHost(candidates, tried, attempt);
      CyclesOn(d, contacted, pick);
      contacted := contacted + [pick];
      match env(attempt)
      case NoClient => return false, contacted;
      case Done => return true, contacted;
      case Failed(err) =>
        if !IsRetryable(err) || attempt >= maxRetries { return false, contacted; }
      attempt := attempt + 1;
    }
  }

  lemma {:induction false} DistinctSize(d: seq<HostInfo>, m: nat)
    requires m <= |d| && forall i, j :: 0 <= i < j < |d| ==> d[i] != d[j]
    ensures |Elements(d[..m])| == m
    decreases m
  {
    if m > 0 {
      DistinctSize(d, m - 1);
      assert d[..m] == d[..m - 1] + [d[m - 1]];
      assert Elements(d[..m]) == Elements(d[..m - 1]) + {d[m - 1]};
    }
  }

  /** A call of a given number of attempts reaches that many distinct hosts, or all of them. */
  lemma ReachesDistinctHosts(d: seq<HostInfo>, contacted: seq<HostInfo>)
    requires Cycles(d, contacted) && (forall i, j :: 0 <= i < j < |d| ==> d[i] != d[j])
    ensures |Elements(contacted)| == if |contacted| < |d| then |contacted| else |d|
  {
    var m := if |contacted| < |d| then |contacted| else |d|;
    DistinctSize(d, m);
    forall x ensures x in contacted <==> x in d[..m] {
      if x in d[..m] {
        var k :| 0 <= k < m && d[k] == x;
        ModOneLap(k, |d|);
        assert contacted[k] == x;
      }
      if x in contacted {
        var k :| 0 <= k < |contacted| && contacted[k] == x;
        if |contacted| < |d| { ModOneLap(k, |d|); }
        assert d[..m][k % |d|] == x;
      }
    }
    assert Elements(contacted) == Elements(d[..m]);
  }
}
