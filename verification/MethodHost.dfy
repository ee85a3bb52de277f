/**
 MethodHost: the host list, the ring and the round-robin counter of one method, changed in
 place. Random draws enter as parameters.
 */
module MethodHostModel {
  import opened Arith
  import opened Bytes
  import opened HashRing
  import opened HostTable
  import opened HostOrder

  const INT_MAX: int32 := 0x7fff_ffff

  /** The position after p in ring order: the next larger point, or the smallest one. */
  predicate IsNext(keys: set<nat>, p: nat, q: nat) {
    && q in keys
    && (q > p ==> forall k :: k in keys && k > p ==> q <= k)
    && (q <= p ==> forall k :: k in keys ==> k <= p && q <= k)
  }

  /** Points passed before reaching p, going clockwise from x. */
  ghost function Passed(keys: set<nat>, x: nat, p: nat): set<nat> { set k | k in keys && Before(x, k, p) }

  lemma NextExists(keys: set<nat>, p: nat)
    requires keys != {}
    ensures exists q :: IsNext(keys, p, q)
  {
    FirstExists(keys, p + 1);
    var q :| IsFirst(keys, p + 1, q);
    assert IsNext(keys, p, q);
  }

  /** One step along the ring passes exactly the current point, until the lap is complete. */
  lemma NextPasses(keys: set<nat>, x: nat, p: nat, q: nat)
    requires p in keys && IsNext(keys, p, q)
    ensures Passed(keys, x, p) + {p} == keys || (Passed(keys, x, q) == Passed(keys, x, p) + {p} && Before(x, p, q))
  {
    if Passed(keys, x, p) + {p} != keys {
      var k :| k in keys && k != p && !Before(x, k, p);
      assert Before(x, p, k);
      assert Before(x, p, q);
      forall j | j in keys ensures Before(x, j, q) <==> Before(x, j, p) || j == p {
      }
    }
  }

  /** at[j] is the first point, clockwise from x, of host picked[j], and the picks are in that order. */
  ghost predicate Clockwise(ring: PointMap, x: nat, picked: seq<nat>, at: seq<nat>) {
    && |at| == |picked|
    && (forall j :: 0 <= j < |at| ==> at[j] in ring && ring[at[j]] == picked[j])
    && (forall i, j :: 0 <= i < j < |at| ==> Before(x, at[i], at[j]))
    && forall j, q :: 0 <= j < |at| && q in ring && ring[q] == picked[j] && q != at[j] ==> Before(x, at[j], q)
  }

  lemma ClockwiseDistinct(ring: PointMap, x: nat, picked: seq<nat>, at: seq<nat>)
    requires Clockwise(ring, x, picked, at)
    ensures forall i, j :: 0 <= i < j < |picked| ==> picked[i] != picked[j]
  {
    forall i, j | 0 <= i < j < |picked| ensures picked[i] != picked[j] {
      assert Before(x, at[i], at[j]) && ring[at[i]] == picked[i];
    }
  }

  lemma SubsetBySize(a: set<nat>, b: set<nat>)
    requires a <= b && |a| == |b|
    ensures a == b
  {
    assert |b - a| == |b| - |a|;
  }

  ghost function Below(n: nat): (r: set<nat>)
    ensures |r| == n && forall k :: k in r <==> 0 <= k < n
  {
    if n == 0 then {} else Below(n - 1) + {n - 1}
  }

  /** n distinct positions below n are all of them. */
  lemma {:induction false} Pigeonhole(picked: seq<nat>, n: nat)
    requires |picked| == n
    requires forall i :: 0 <= i < n ==> picked[i] < n
    requires forall i, j :: 0 <= i < j < n ==> picked[i] != picked[j]
    ensures forall k: nat :: k < n ==> k in picked
  {
    DistinctCount(picked);
    SubsetBySize(Members(picked), Below(n));
    forall k: nat | k < n ensures k in picked {
      assert k in Below(n);
    }
  }

  ghost function Members(s: seq<nat>): set<nat> { set x | x in s }

  lemma {:induction false} DistinctCount(s: seq<nat>)
    requires forall i, j :: 0 <= i < j < |s| ==> s[i] != s[j]
    ensures |Members(s)| == |s|
    decreases |s|
  {
    if s != [] {
      var m := |s| - 1;
      DistinctCount(s[..m]);
      assert s == s[..m] + [s[m]];
      assert Members(s) == Members(s[..m]) + {s[m]};
    }
  }

  lemma InsertStep(hash: Hash, ring: PointMap, h: HostInfo, i: nat, v: nat)
    ensures Insert(hash, ring, h, i, v + 1) == Insert(hash, ring, h, i, v)[Point(hash, h, v) := i]
    ensures Insert(hash, ring, h, i, 0) == ring
  {
    assert Points(hash, h, v + 1) == Points(hash, h, v) + {Point(hash, h, v)};
  }

  datatype Strategy = RoundRobin | Random | SourceHash | LowestLoad | ConsistentHash

  const NO_HOST := HostDetail(HostInfo("", 0), 0)

  /** The strategy and key leave the choice to chance. */
  predicate Drawn(strategy: Strategy, key: string, ring: PointMap) {
    || strategy.Random?
    || (strategy.SourceHash? && key == "")
    || (strategy.ConsistentHash? && (key == "" || ring == map[]))
  }

  /** Only the random strategy, an empty key and an empty ring leave anything to chance. */
  lemma ChanceExactly(strategy: Strategy, key: string, ring: PointMap)
    ensures strategy.RoundRobin? || strategy.LowestLoad? ==> !Drawn(strategy, key, ring)
    ensures strategy.SourceHash? ==> (Drawn(strategy, key, ring) <==> |key| == 0)
    ensures strategy.ConsistentHash? ==> (Drawn(strategy, key, ring) <==> |key| == 0 || ring.Keys == {})
  {
  }

  /** d is the host a strategy singles out in a given state. */
  ghost predicate Singles(strategy: Strategy, hash: Hash, key: string, t: Table, idx: nat, d: HostDetail)
    requires t.hosts != []
  {
    match strategy
    case RoundRobin => d == t.hosts[NthPick(idx, |t.hosts|, 0)]
    case SourceHash => d == t.hosts[hash(key) % |t.hosts|]
    case LowestLoad => exists best :: IsBest(t.hosts, best) && best != [] && d == t.hosts[best[idx % |best|]]
    case ConsistentHash => exists p :: IsFirst(t.ring.Keys, hash(key), p) && t.ring[p] < |t.hosts| && d == t.hosts[t.ring[p]]
    case Random => true
  }

  /** Except by chance, a state singles out one host. */
  lemma SinglesOne(strategy: Strategy, hash: Hash, key: string, t: Table, idx: nat, d: HostDetail, e: HostDetail)
    requires t.hosts != [] && !strategy.Random?
    requires Singles(strategy, hash, key, t, idx, d) && Singles(strategy, hash, key, t, idx, e)
    ensures d == e
  {
    if strategy.LowestLoad? {
      var b :| IsBest(t.hosts, b) && b != [] && d == t.hosts[b[idx % |b|]];
      var c :| IsBest(t.hosts, c) && c != [] && e == t.hosts[c[idx % |c|]];
      BestUnique(t.hosts, b, c);
    }
  }

  /** The hosts from position start on, around the list. */
  ghost predicate RotatesFrom(hosts: seq<HostDetail>, start: nat, out: seq<HostDetail>) {
    |out| == |hosts| && forall i :: 0 <= i < |out| ==> out[i] == hosts[(start + i) % |hosts|]
  }

  /** The hosts by ascending load, ties in list order, but with the lightest group rotated to begin at its member number start. */
  ghost predicate ByLoadFrom(hosts: seq<HostDetail>, start: nat, order: seq<nat>, cnt: nat, full: seq<nat>, out: seq<HostDetail>) {
    && IsPerm(order, |hosts|) && Sorted(hosts, order) && IsRotated(order, cnt, start, full) && IsBest(hosts, order[..cnt])
    && Positions(hosts, full) && out == Arrange(hosts, full)
  }

  ghost predicate ListsByLoad(hosts: seq<HostDetail>, start: nat, out: seq<HostDetail>) {
    exists order, cnt, full :: ByLoadFrom(hosts, start, order, cnt, full, out)
  }

  /** The hosts owning a ring point, each once, in the order a clockwise walk from x first meets them. */
  ghost predicate WalksFrom(hosts: seq<HostDetail>, ring: PointMap, x: nat, picked: seq<nat>, at: seq<nat>, out: seq<HostDetail>) {
    && Clockwise(ring, x, picked, at) && (forall k :: k in picked <==> k in ring.Values)
    && Positions(hosts, picked) && out == Arrange(hosts, picked)
  }

  /** out is the whole candidate list of a strategy in a given state. */
  ghost predicate Lists(strategy: Strategy, hash: Hash, key: string, t: Table, idx: nat, out: seq<HostDetail>) {
    match strategy
    case RoundRobin => RotatesFrom(t.hosts, idx, out)
    case SourceHash => RotatesFrom(t.hosts, hash(key), out)
    case LowestLoad => ListsByLoad(t.hosts, idx, out)
    case ConsistentHash => exists picked, at :: WalksFrom(t.hosts, t.ring, hash(key), picked, at, out)
    case Random => true
  }

  /** The counter after a choice. */
  function CounterAfter(strategy: Strategy, idx: nat, n: nat): nat
    requires n > 0
  {
    if strategy.RoundRobin? || strategy.LowestLoad? then NextIdx(idx, n) else idx
  }

  class MethodHost {
    const hash: Hash
    var hosts: seq<HostDetail>
    var ring: PointMap
    var ringBuilt: bool
    var idx: nat

    ghost function View(): Table
      reads this
    {
      Table(hosts, ring, ringBuilt)
    }

    ghost predicate Valid()
      reads this
    {
      Agrees(hash, View())
    }

    constructor (hash: Hash, hosts: seq<HostDetail>)
      ensures Valid() && View() == Table(hosts, map[], false) && idx == 0 && this.hash == hash
    {
      this.hash, this.hosts, ring, ringBuilt, idx := hash, hosts, map[], false, 0;
    }

    method InsertNodes(i: nat)
      requires i < |hosts|
      modifies this`ring
      ensures ring == Insert(hash, old(ring), hosts[i].host, i, VIRTUAL_NODES)
    {
      var h := hosts[i].host;
      InsertStep(hash, ring, h, i, 0);
      for v := 0 to VIRTUAL_NODES
        invariant ring == Insert(hash, old(ring), h, i, v)
      {
        InsertStep(hash, old(ring), h, i, v);
        ring := ring[Point(hash, h, v) := i];
      }
    }

    method RebuildRing()
      modifies this`ring, this`ringBuilt
      ensures Valid() && ringBuilt && ring == Build(hash, Infos(hosts))
    {
      ring := map[];
      for i := 0 to |hosts|
        invariant ring == Build(hash, Infos(hosts)[..i])
      {
        assert Infos(hosts)[..i + 1][..i] == Infos(hosts)[..i];
        InsertNodes(i);
      }
      assert Infos(hosts)[..|hosts|] == Infos(hosts);
      ringBuilt := true;
    }

    method AppendHost(host: HostInfo, load: int32)
      requires Valid()
      modifies this`hosts, this`ring, this`ringBuilt
      ensures Valid() && View() == AppendTo(hash, old(View()), host, load)
    {
      AppendAgrees(hash, View(), host, load);
      var j := Find(hosts, host);
      if j < |hosts| {
        hosts := hosts[j := HostDetail(host, load)];
        return;
      }
      hosts := hosts + [HostDetail(host, load)];
      if ringBuilt { InsertNodes(|hosts| - 1); } else { RebuildRing(); }
    }

    method RemoveHost(host: HostInfo)
      requires Valid()
      modifies this`hosts, this`ring, this`ringBuilt
      ensures Valid() && View() == RemoveFrom(hash, old(View()), host)
    {
      var j := Find(hosts, host);
      if j < |hosts| {
        hosts := hosts[..j] + hosts[j + 1..];
        RebuildRing();
      }
    }

    // ----- single choice -----

    method PickRoundRobin() returns (d: HostDetail)
      requires hosts != []
      modifies this`idx
      ensures d == hosts[NthPick(old(idx), |hosts|, 0)] && idx == NextIdx(old(idx), |hosts|)
    {
      var pos := idx % |hosts|;
      AdvanceCounter();
      d := hosts[pos];
    }

    /** The lightest hosts take turns. */
    method PickLowestLoad() returns (d: HostDetail, ghost best: seq<nat>)
      requires hosts != []
      modifies this`idx
      ensures IsBest(hosts, best) && best != [] && d == hosts[best[old(idx) % |best|]]
      ensures idx == NextIdx(old(idx), |hosts|)
    {
      var bestLoad: int32, candidates: seq<nat> := INT_MAX, [];
      for i := 0 to |hosts|
        invariant candidates == [] <==> i == 0
        invariant i == 0 ==> bestLoad == INT_MAX
        invariant forall j :: 0 <= j < |candidates| ==> candidates[j] < i && hosts[candidates[j]].load == bestLoad
        invariant forall j, k :: 0 <= j < k < |candidates| ==> candidates[j] < candidates[k]
        invariant forall j :: 0 <= j < i ==> bestLoad <= hosts[j].load && (hosts[j].load == bestLoad ==> j in candidates)
      {
        if hosts[i].load < bestLoad {
          bestLoad, candidates := hosts[i].load, [i];
        } else if hosts[i].load == bestLoad {
          candidates := candidates + [i];
        }
      }
      best := candidates;
      assert candidates[0] in candidates;
      assert IsLightest(hosts, candidates[0]);
      var cur := idx;
      AdvanceCounter();
      d := hosts[candidates[cur % |candidates|]];
    }

    /** The host owning the first ring point at or after the key's hash. */
    method PickConsistentHash(key: string) returns (d: HostDetail)
      requires Valid() && hosts != [] && ring != map[]
      ensures exists p :: IsFirst(ring.Keys, hash(key), p) && ring[p] < |hosts| && d == hosts[ring[p]]
      ensures d.host == Route(hash, View(), hash(key))
    {
      var x := hash(key);
      FirstExists(ring.Keys, x);
      var p :| p in ring.Keys && IsFirst(ring.Keys, x, p);
      BuildOwner(hash, Infos(hosts), p);
      ChoiceIs(hash, Infos(hosts), x, p, ring[p]);
      d := hosts[ring[p]];
    }

    /** selectHost. draw is the position a random draw would give. */
    method SelectHost(strategy: Strategy, key: string, draw: nat) returns (d: HostDetail)
      requires Valid() && (hosts != [] ==> draw < |hosts|)
      modifies this`idx
      ensures hosts == [] ==> d == NO_HOST && idx == old(idx)
      ensures hosts != [] ==> idx == CounterAfter(strategy, old(idx), |hosts|)
      ensures hosts != [] && Drawn(strategy, key, ring) ==> d == hosts[draw]
      ensures hosts != [] && !Drawn(strategy, key, ring) ==> Singles(strategy, hash, key, View(), old(idx), d)
    {
      if hosts == [] { return NO_HOST; }
      if Drawn(strategy, key, ring) { return hosts[draw]; }
      match strategy
      case RoundRobin => d := PickRoundRobin();
      case SourceHash => d := hosts[hash(key) % |hosts|];
      case LowestLoad => var e, _ := PickLowestLoad(); d := e;
      case ConsistentHash => d := PickConsistentHash(key);
    }

    // ----- candidate lists -----

    /**
     selectHosts. shuffle is the order a random shuffle would give. Unless it is left to chance the
     whole list is the one Lists describes. It starts with the host selectHost would choose in the
     same state, and it is a permutation of the hosts except under consistent hashing.
     */
    method SelectHosts(strategy: Strategy, key: string, shuffle: seq<nat>) returns (out: seq<HostDetail>)
      requires Valid() && IsPerm(shuffle, |hosts|)
      modifies this`idx
      ensures hosts == [] ==> out == [] && idx == old(idx)
      ensures hosts != [] ==> out != [] && idx == CounterAfter(strategy, old(idx), |hosts|)
      ensures hosts != [] && !Drawn(strategy, key, ring) ==>
                Lists(strategy, hash, key, View(), old(idx), out) && Singles(strategy, hash, key, View(), old(idx), out[0])
      ensures hosts != [] && Drawn(strategy, key, ring) ==> Positions(hosts, shuffle) && out == Arrange(hosts, shuffle)
      ensures Drawn(strategy, key, ring) || !strategy.ConsistentHash? ==> multiset(out) == multiset(hosts)
      ensures strategy.LowestLoad? ==> forall i, j :: 0 <= i < j < |out| ==> out[i].load <= out[j].load
    {
      if hosts == [] { return []; }
      if Drawn(strategy, key, ring) {
        PermRange(shuffle, |hosts|);
        ArrangePermutes(hosts, shuffle);
        return Arrange(hosts, shuffle);
      }
      match strategy
      case RoundRobin => out := CandidatesRoundRobin();
      case SourceHash => out := CandidatesSourceHash(key);
      case LowestLoad => var o, _ := CandidatesLowestLoad(); out := o;
      case ConsistentHash =>
        var o, picked, at := CandidatesConsistentHash(key);
        assert WalksFrom(hosts, ring, hash(key), picked, at, o);
        out := o;
    }

    /** Round robin: all hosts, rotated to start where a single pick would go. */
    method CandidatesRoundRobin() returns (out: seq<HostDetail>)
      requires hosts != []
      modifies this`idx
      ensures multiset(out) == multiset(hosts) && |out| == |hosts|
      ensures out[0] == hosts[NthPick(old(idx), |hosts|, 0)] && idx == NextIdx(old(idx), |hosts|)
      ensures RotatesFrom(hosts, old(idx), out)
    {
      var start := idx % |hosts|;
      AdvanceCounter();
      out := RotateFrom(start);
      ReducedRotation(hosts, old(idx), out);
    }

    /** Source hash: all hosts, rotated to start at the key's host. */
    method CandidatesSourceHash(key: string) returns (out: seq<HostDetail>)
      requires hosts != []
      ensures multiset(out) == multiset(hosts) && |out| == |hosts| && out[0] == hosts[hash(key) % |hosts|]
      ensures RotatesFrom(hosts, hash(key), out)
    {
      out := RotateFrom(hash(key) % |hosts|);
      ReducedRotation(hosts, hash(key), out);
    }

    method RotateFrom(start: nat) returns (out: seq<HostDetail>)
      requires start < |hosts|
      ensures multiset(out) == multiset(hosts) && |out| == |hosts| && out[0] == hosts[start]
      ensures RotatesFrom(hosts, start, out)
    {
      out := [];
      for i := 0 to |hosts|
        invariant |out| == i && forall j :: 0 <= j < i ==> out[j] == hosts[(start + j) % |hosts|]
      {
        out := out + [hosts[(start + i) % |hosts|]];
      }
      RotationIsPerm(start, |hosts|);
      ArrangePermutes(hosts, Rotation(start, |hosts|));
      assert out == Arrange(hosts, Rotation(start, |hosts|));
    }

    /** Lowest load: all hosts by ascending load, the lightest group rotated as a single pick would. */
    method CandidatesLowestLoad() returns (out: seq<HostDetail>, ghost best: seq<nat>)
      requires hosts != []
      modifies this`idx
      ensures ListsByLoad(hosts, old(idx), out)
      ensures multiset(out) == multiset(hosts) && |out| == |hosts|
      ensures forall i, j :: 0 <= i < j < |out| ==> out[i].load <= out[j].load
      ensures IsBest(hosts, best) && best != [] && out[0] == hosts[best[old(idx) % |best|]]
      ensures idx == NextIdx(old(idx), |hosts|)
    {
      out, best := LowestLoadFrom(idx);
      AdvanceCounter();
    }

    /** The counter moves on, reduced before it can overflow. */
    method AdvanceCounter()
      requires hosts != []
      modifies this`idx
      ensures idx == NextIdx(old(idx), |hosts|)
    {
      idx := idx + 1;
      if idx >= MAX_IDX { idx := idx % |hosts|; }
    }

    /** The listing for a given counter value. */
    method LowestLoadFrom(start: nat) returns (out: seq<HostDetail>, ghost best: seq<nat>)
      requires hosts != []
      ensures ListsByLoad(hosts, start, out)
      ensures multiset(out) == multiset(hosts) && |out| == |hosts|
      ensures forall i, j :: 0 <= i < j < |out| ==> out[i].load <= out[j].load
      ensures IsBest(hosts, best) && best != [] && out[0] == hosts[best[start % |best|]]
    {
      var order := StableOrder(hosts, |hosts|);
      StableOrderIsPerm(hosts, |hosts|);
      StableOrderSorts(hosts, |hosts|);
      PermRange(order, |hosts|);
      var cnt := LeadingGroup(order);
      LeadingGroupIsBest(hosts, order, cnt);
      best := order[..cnt];
      var full := RotateGroup(order, cnt, start);
      LowestListing(hosts, order, cnt, start, full);
      out := Arrange(hosts, full);
      assert ByLoadFrom(hosts, start, order, cnt, full, out);
    }

    /** How many leading entries share the lowest load. */
    method LeadingGroup(order: seq<nat>) returns (cnt: nat)
      requires order != [] && forall i :: 0 <= i < |order| ==> order[i] < |hosts|
      ensures 0 < cnt <= |order| && forall i :: 0 <= i < cnt ==> hosts[order[i]].load == hosts[order[0]].load
      ensures cnt < |order| ==> hosts[order[cnt]].load != hosts[order[0]].load
    {
      cnt := 1;
      while cnt < |order| && hosts[order[cnt]].load == hosts[order[0]].load
        invariant 1 <= cnt <= |order| && forall i :: 0 <= i < cnt ==> hosts[order[i]].load == hosts[order[0]].load
      {
        cnt := cnt + 1;
      }
    }

    /** The order with its first cnt entries rotated to begin at start. */
    method RotateGroup(order: seq<nat>, cnt: nat, start: nat) returns (full: seq<nat>)
      requires 0 < cnt <= |order|
      ensures IsRotated(order, cnt, start, full)
    {
      var group := [];
      for i := 0 to cnt
        invariant |group| == i && forall j :: 0 <= j < i ==> group[j] == order[(start + j) % cnt]
      {
        group := group + [order[(start + i) % cnt]];
      }
      full := group + order[cnt..];
    }

    /** Consistent hash: the hosts that own a ring point, in the order a clockwise walk from the key's hash meets them. */
    method CandidatesConsistentHash(key: string) returns (out: seq<HostDetail>, picked: seq<nat>, ghost at: seq<nat>)
      requires Valid() && hosts != [] && ring != map[]
      ensures Clockwise(ring, hash(key), picked, at)
      ensures forall i, j :: 0 <= i < j < |picked| ==> picked[i] != picked[j]
      ensures forall k :: k in picked <==> k in ring.Values
      ensures Positions(hosts, picked) && out == Arrange(hosts, picked)
      ensures out != [] && IsFirst(ring.Keys, hash(key), at[0])
    {
      forall p | p in ring ensures ring[p] < |hosts| {
        BuildOwner(hash, Infos(hosts), p);
      }
      picked, at := WalkRing(ring, |hosts|, hash(key));
      ClockwiseDistinct(ring, hash(key), picked, at);
      out := Arrange(hosts, picked);
    }
  }

  /** The walk around the ring from x, each host listed when first met, ending early once all are listed. */
  method WalkRing(ring: PointMap, n: nat, x: nat) returns (picked: seq<nat>, ghost at: seq<nat>)
    requires ring != map[] && forall p :: p in ring ==> ring[p] < n
    ensures Clockwise(ring, x, picked, at)
    ensures forall k :: k in picked <==> k in ring.Values
    ensures forall i :: 0 <= i < |picked| ==> picked[i] < n
    ensures picked != [] && IsFirst(ring.Keys, x, at[0])
  {
    FirstExists(ring.Keys, x);
    var it :| it in ring.Keys && IsFirst(ring.Keys, x, it);
    ghost var passed: set<nat> := {};
    var seen, remaining, step := seq(n, _ => false), n, 0;
    picked, at := [], [];
    assert Passed(ring.Keys, x, it) == {};
    while step < |ring.Keys| && remaining > 0
      invariant |seen| == n && remaining == n - |picked| && step == |passed|
      invariant OnLap(ring.Keys, x, passed, it)
      invariant Met(ring, x, picked, at, passed)
      invariant forall k :: 0 <= k < n ==> (seen[k] <==> k in picked)
      decreases |ring.Keys| - step
    {
      assert passed != ring.Keys;
      seen, remaining, picked, at := Visit(ring, n, x, seen, remaining, picked, at, passed, it);
      var nx := Advance(ring.Keys, x, passed, it);
      passed := passed + {it};
      it, step := nx, step + 1;
    }
    OnLapSize(ring.Keys, x, passed, it);
    WalkComplete(ring, x, picked, at, passed, n);
  }

  /** List the owner of the current point unless it is listed already. */
  method Visit(ring: PointMap, n: nat, ghost x: nat, seen: seq<bool>, remaining: nat, picked: seq<nat>,
               ghost at: seq<nat>, ghost passed: set<nat>, it: nat)
    returns (seen': seq<bool>, remaining': nat, picked': seq<nat>, ghost at': seq<nat>)
    requires it in ring && ring[it] < n && |seen| == n && remaining > 0 && (forall k :: 0 <= k < n ==> (seen[k] <==> k in picked))
    requires Met(ring, x, picked, at, passed) && passed == Passed(ring.Keys, x, it)
    ensures Met(ring, x, picked', at', passed + {it})
    ensures |seen'| == n && forall k :: 0 <= k < n ==> (seen'[k] <==> k in picked')
    ensures remaining' + |picked'| == remaining + |picked|
  {
    var i := ring[it];
    seen', remaining', picked', at' := seen, remaining, picked, at;
    MetStep(ring, x, picked, at, passed, it);
    if !seen[i] {
      seen', remaining' := seen[i := true], remaining - 1;
      picked', at' := picked + [i], at + [it];
    }
  }

  /** A full listing starts at the first point clockwise from x. */
  lemma HeadIsFirst(ring: PointMap, x: nat, picked: seq<nat>, at: seq<nat>)
    requires ring != map[] && Clockwise(ring, x, picked, at) && forall k :: k in ring.Values ==> k in picked
    ensures picked != [] && IsFirst(ring.Keys, x, at[0])
  {
    var p :| p in ring;
    assert ring[p] in ring.Values;
    forall k | k in ring.Keys && k != at[0] ensures Before(x, at[0], k) {
      assert ring[k] in ring.Values;
      var j :| 0 <= j < |picked| && picked[j] == ring[k];
      assert k == at[j] || Before(x, at[j], k);
      assert j == 0 || Before(x, at[0], at[j]);
    }
  }

  /** ++it, wrapping at the end of the ring. */
  method Advance(keys: set<nat>, ghost x: nat, ghost passed: set<nat>, it: nat) returns (nx: nat)
    requires OnLap(keys, x, passed, it) && passed != keys
    ensures it !in passed && OnLap(keys, x, passed + {it}, nx)
  {
    NextExists(keys, it);
    nx :| nx in keys && IsNext(keys, it, nx);
    NextPasses(keys, x, it, nx);
  }

  /** Until the lap is complete, the points passed are those before the current one. */
  ghost predicate OnLap(keys: set<nat>, x: nat, passed: set<nat>, it: nat) {
    passed <= keys && (passed != keys ==> it in keys && passed == Passed(keys, x, it))
  }

  lemma OnLapSize(keys: set<nat>, x: nat, passed: set<nat>, it: nat)
    requires OnLap(keys, x, passed, it)
    ensures |passed| <= |keys| && (|passed| == |keys| ==> passed == keys)
  {
    assert |keys - passed| == |keys| - |passed|;
  }

  /** The hosts of the passed points are listed, each by its first point. */
  ghost predicate Met(ring: PointMap, x: nat, picked: seq<nat>, at: seq<nat>, passed: set<nat>) {
    && Clockwise(ring, x, picked, at)
    && passed <= ring.Keys
    && (forall k :: k in passed ==> ring[k] in picked)
    && forall j :: 0 <= j < |at| ==> at[j] in passed
  }

  lemma MetStep(ring: PointMap, x: nat, picked: seq<nat>, at: seq<nat>, passed: set<nat>, it: nat)
    requires Met(ring, x, picked, at, passed) && it in ring && passed == Passed(ring.Keys, x, it)
    ensures if ring[it] in picked then Met(ring, x, picked, at, passed + {it})
            else Met(ring, x, picked + [ring[it]], at + [it], passed + {it})
  {
    if ring[it] !in picked { ClockwiseExtend(ring, x, picked, at, passed, it); }
  }

  /** A point not passed yet, of a host not met yet, is where that host is first met. */
  lemma ClockwiseExtend(ring: PointMap, x: nat, picked: seq<nat>, at: seq<nat>, passed: set<nat>, it: nat)
    requires Clockwise(ring, x, picked, at) && it in ring && passed == Passed(ring.Keys, x, it)
    requires ring[it] !in picked && (forall k :: k in passed ==> ring[k] in picked)
    requires forall j :: 0 <= j < |at| ==> at[j] in passed
    ensures Clockwise(ring, x, picked + [ring[it]], at + [it])
  {
    forall q | q in ring && ring[q] == ring[it] && q != it ensures Before(x, it, q) {
      assert q !in passed;
    }
  }

  /** After a full lap, or once as many hosts are listed as there are, every owner is listed. */
  lemma WalkComplete(ring: PointMap, x: nat, picked: seq<nat>, at: seq<nat>, passed: set<nat>, n: nat)
    requires ring != map[] && (forall p :: p in ring ==> ring[p] < n) && Met(ring, x, picked, at, passed)
    requires |picked| == n || passed == ring.Keys
    ensures forall i :: 0 <= i < |picked| ==> picked[i] < n
    ensures forall k :: k in picked <==> k in ring.Values
    ensures picked != [] && IsFirst(ring.Keys, x, at[0])
  {
    ClockwiseDistinct(ring, x, picked, at);
    if |picked| == n { Pigeonhole(picked, n); }
    HeadIsFirst(ring, x, picked, at);
  }

  /** Starting from start or from start reduced modulo the length is the same. */
  lemma ReducedRotation(hosts: seq<HostDetail>, start: nat, out: seq<HostDetail>)
    requires hosts != [] && RotatesFrom(hosts, start % |hosts|, out)
    ensures RotatesFrom(hosts, start, out)
  {
    forall i | 0 <= i < |out| ensures out[i] == hosts[(start + i) % |hosts|] {
      ModAddReduced(start, i, |hosts|);
    }
  }

  ghost predicate IsRotated(order: seq<nat>, cnt: nat, start: nat, full: seq<nat>) {
    && 0 < cnt <= |order| == |full|
    && (forall j :: 0 <= j < cnt ==> full[j] == order[(start + j) % cnt])
    && forall j :: cnt <= j < |full| ==> full[j] == order[j]
  }

  /** Rotating the leading group keeps the listing a permutation. */
  lemma RotatedIsPerm(order: seq<nat>, cnt: nat, start: nat, full: seq<nat>)
    requires IsRotated(order, cnt, start, full)
    ensures multiset(full) == multiset(order) && full[0] == order[..cnt][start % cnt]
  {
    var s := start % cnt;
    forall j | 0 <= j < cnt ensures full[j] == order[if s + j < cnt then s + j else s + j - cnt] {
      ModAddReduced(start, j, cnt);
      ModOneLap(s + j, cnt);
    }
    assert full == order[s..cnt] + order[..s] + order[cnt..];
    assert order == order[..s] + order[s..cnt] + order[cnt..];
  }

  /** Rotating a leading group of equal load keeps the loads ascending. */
  lemma RotatedByLoad(hosts: seq<HostDetail>, order: seq<nat>, cnt: nat, start: nat, full: seq<nat>)
    requires IsRotated(order, cnt, start, full) && Sorted(hosts, order)
    requires forall i :: 0 <= i < cnt ==> hosts[order[i]].load == hosts[order[0]].load
    ensures Positions(hosts, full)
    ensures forall i, j :: 0 <= i < j < |full| ==> hosts[full[i]].load <= hosts[full[j]].load
  {
    forall i | 0 <= i < cnt ensures full[i] < |hosts| && hosts[full[i]].load == hosts[order[0]].load {
      assert full[i] == order[(start + i) % cnt];
    }
    forall i, j | 0 <= i < j < |full| ensures hosts[full[i]].load <= hosts[full[j]].load {
      if j >= cnt { assert Lighter(hosts, order[if i < cnt then 0 else i], order[j]); }
    }
  }

  lemma LowestListing(hosts: seq<HostDetail>, order: seq<nat>, cnt: nat, start: nat, full: seq<nat>)
    requires IsPerm(order, |hosts|) && Sorted(hosts, order) && IsRotated(order, cnt, start, full)
    requires forall i :: 0 <= i < cnt ==> hosts[order[i]].load == hosts[order[0]].load
    ensures Positions(hosts, full) && full[0] == order[..cnt][start % cnt]
    ensures multiset(Arrange(hosts, full)) == multiset(hosts) && |full| == |hosts|
    ensures forall i, j :: 0 <= i < j < |full| ==> hosts[full[i]].load <= hosts[full[j]].load
  {
    PermRange(order, |hosts|);
    RotatedIsPerm(order, cnt, start, full);
    ArrangePermutes(hosts, full);
    RotatedByLoad(hosts, order, cnt, start, full);
  }
}
