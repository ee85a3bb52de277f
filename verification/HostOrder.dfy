/**
 Orders over a host list, given as lists of positions: rotation, ascending load with ties kept
 in list order, and the round-robin counter.
 */
module HostOrder {
  import opened Arith
  import opened HashRing

  function Iota(n: nat): (r: seq<nat>)
    ensures |r| == n && forall i :: 0 <= i < n ==> r[i] == i
  {
    seq(n, i => i)
  }

  lemma IotaStep(n: nat, last: nat)
    requires n == last + 1
    ensures multiset(Iota(n)) == multiset(Iota(last)) + multiset{last}
  {
    assert Iota(n) == Iota(last) + [last];
  }

  /** order lists every position below n once. */
  ghost predicate IsPerm(order: seq<nat>, n: nat) { multiset(order) == multiset(Iota(n)) }

  lemma PermRange(order: seq<nat>, n: nat)
    requires IsPerm(order, n)
    ensures |order| == n && (forall i :: 0 <= i < |order| ==> order[i] < n) && forall k: nat :: k < n ==> k in order
  {
    assert |multiset(order)| == |multiset(Iota(n))|;
    forall i | 0 <= i < |order| ensures order[i] < n {
      assert order[i] in multiset(Iota(n));
    }
    forall k: nat | k < n ensures k in order {
      assert Iota(n)[k] in multiset(order);
    }
  }

  /** The hosts in the given order. */
  function Arrange(hosts: seq<HostDetail>, order: seq<nat>): (r: seq<HostDetail>)
    requires forall i :: 0 <= i < |order| ==> order[i] < |hosts|
    ensures |r| == |order| && forall i :: 0 <= i < |order| ==> r[i] == hosts[order[i]]
  {
    seq(|order|, i requires 0 <= i < |order| => hosts[order[i]])
  }

  lemma ArrangeConcat(hosts: seq<HostDetail>, a: seq<nat>, b: seq<nat>)
    requires forall i :: 0 <= i < |a| ==> a[i] < |hosts|
    requires forall i :: 0 <= i < |b| ==> b[i] < |hosts|
    ensures Arrange(hosts, a + b) == Arrange(hosts, a) + Arrange(hosts, b)
  {
  }

  lemma RemoveAt<T>(s: seq<T>, j: nat)
    requires j < |s|
    ensures multiset(s) == multiset{s[j]} + multiset(s[..j] + s[j + 1..])
  {
    assert s == s[..j] + [s[j]] + s[j + 1..];
  }

  lemma SameRest(a: seq<nat>, b: seq<nat>, j: nat)
    requires a != [] && j < |b| && b[j] == a[0] && multiset(a) == multiset(b)
    ensures multiset(a[..0] + a[1..]) == multiset(b[..j] + b[j + 1..])
  {
    RemoveAt(a, 0);
    RemoveAt(b, j);
    assert multiset(a[..0] + a[1..]) == multiset(a) - multiset{a[0]};
    assert multiset(b[..j] + b[j + 1..]) == multiset(b) - multiset{a[0]};
  }

  lemma {:induction false} ArrangeMultiset(hosts: seq<HostDetail>, a: seq<nat>, b: seq<nat>)
    requires forall i :: 0 <= i < |a| ==> a[i] < |hosts|
    requires forall i :: 0 <= i < |b| ==> b[i] < |hosts|
    requires multiset(a) == multiset(b)
    ensures multiset(Arrange(hosts, a)) == multiset(Arrange(hosts, b))
    decreases |a|
  {
    if a == [] {
      assert |multiset(b)| == 0;
    } else {
      assert a[0] in multiset(b);
      var j :| 0 <= j < |b| && b[j] == a[0];
      var a', b' := a[..0] + a[1..], b[..j] + b[j + 1..];
      SameRest(a, b, j);
      ArrangeMultiset(hosts, a', b');
      ArrangeRemoveAt(hosts, a, 0);
      ArrangeRemoveAt(hosts, b, j);
    }
  }

  lemma ArrangeRemoveAt(hosts: seq<HostDetail>, b: seq<nat>, j: nat)
    requires j < |b| && forall i :: 0 <= i < |b| ==> b[i] < |hosts|
    ensures var c := b[..j] + b[j + 1..]; forall i :: 0 <= i < |c| ==> c[i] < |hosts|
    ensures multiset(Arrange(hosts, b)) == multiset{hosts[b[j]]} + multiset(Arrange(hosts, b[..j] + b[j + 1..]))
  {
    var r := Arrange(hosts, b);
    RemoveAt(r, j);
    ArrangeConcat(hosts, b[..j], b[j + 1..]);
    assert r[..j] == Arrange(hosts, b[..j]) && r[j + 1..] == Arrange(hosts, b[j + 1..]);
  }

  /** Hosts listed in any full order are a permutation of the list. */
  lemma ArrangePermutes(hosts: seq<HostDetail>, order: seq<nat>)
    requires IsPerm(order, |hosts|)
    ensures (forall i :: 0 <= i < |order| ==> order[i] < |hosts|) && multiset(Arrange(hosts, order)) == multiset(hosts)
  {
    PermRange(order, |hosts|);
    ArrangeMultiset(hosts, order, Iota(|hosts|));
    assert Arrange(hosts, Iota(|hosts|)) == hosts;
  }

  // ----- rotation -----

  /** Positions start, start + 1, ... modulo n. */
  function Rotation(start: nat, n: nat): (r: seq<nat>)
    requires n > 0
    ensures |r| == n && forall i :: 0 <= i < n ==> r[i] == (start + i) % n
  {
    seq(n, i requires 0 <= i < n => (start + i) % n)
  }

  lemma RotationIsPerm(start: nat, n: nat)
    requires start < n
    ensures IsPerm(Rotation(start, n), n) && Rotation(start, n)[0] == start
  {
    var r, s := Rotation(start, n), Iota(n);
    forall i | 0 <= i < n ensures r[i] == if start + i < n then start + i else start + i - n {
      ModOneLap(start + i, n);
    }
    assert r == s[start..] + s[..start];
    assert s == s[..start] + s[start..];
  }

  // ----- round robin -----

  const MAX_IDX: nat := 1_000_000_000

  /** The counter after one use over n hosts. */
  function NextIdx(idx: nat, n: nat): nat
    requires n > 0
  {
    if idx + 1 >= MAX_IDX then (idx + 1) % n else idx + 1
  }

  function IdxAfter(idx: nat, n: nat, picks: nat): nat
    requires n > 0
    decreases picks
  {
    if picks == 0 then idx else NextIdx(IdxAfter(idx, n, picks - 1), n)
  }

  /** Position chosen by the k-th of a series of round-robin picks. */
  function NthPick(idx: nat, n: nat, k: nat): nat
    requires n > 0
  {
    IdxAfter(idx, n, k) % n
  }

  /** The positions chosen by n picks in a row, after from earlier ones. */
  function PickSeries(idx: nat, n: nat, from: nat): (r: seq<nat>)
    requires n > 0
    ensures |r| == n && forall i :: 0 <= i < n ==> r[i] == NthPick(idx, n, from + i)
  {
    seq<nat>(n, i requires 0 <= i < n => NthPick(idx, n, from + i))
  }

  lemma {:induction false} NthPickAdvances(idx: nat, n: nat, k: nat)
    requires n > 0
    ensures NthPick(idx, n, k) == (idx + k) % n
    decreases k
  {
    if k > 0 {
      NthPickAdvances(idx, n, k - 1);
      var prev := IdxAfter(idx, n, k - 1);
      ModAddReduced(prev, 1, n);
      ModAddReduced(idx + k - 1, 1, n);
      ModAddReduced(prev + 1, 0, n);
    }
  }

  /** Any n consecutive picks use each of the n positions once, also across the counter's reduction. */
  lemma RoundRobinIsFair(idx: nat, n: nat, from: nat)
    requires n > 0
    ensures IsPerm(PickSeries(idx, n, from), n)
  {
    var start := (idx + from) % n;
    var picks, rot := PickSeries(idx, n, from), Rotation(start, n);
    forall i | 0 <= i < n ensures picks[i] == rot[i] {
      NthPickAdvances(idx, n, from + i);
      ModAddReduced(idx + from, i, n);
    }
    assert picks == rot;
    RotationIsPerm(start, n);
  }

  // ----- lowest load -----

  /** Position a goes before position b: lower load, or same load and earlier in the list. */
  predicate Lighter(hosts: seq<HostDetail>, a: nat, b: nat)
    requires a < |hosts| && b < |hosts|
  {
    hosts[a].load < hosts[b].load || (hosts[a].load == hosts[b].load && a < b)
  }

  ghost predicate Positions(hosts: seq<HostDetail>, order: seq<nat>) {
    forall i :: 0 <= i < |order| ==> order[i] < |hosts|
  }

  ghost predicate Sorted(hosts: seq<HostDetail>, order: seq<nat>) {
    Positions(hosts, order) && forall i, j :: 0 <= i < j < |order| ==> Lighter(hosts, order[i], order[j])
  }

  /** Insertion after every entry that is not heavier: what keeps the sort stable. */
  function InsertStable(hosts: seq<HostDetail>, order: seq<nat>, k: nat): (r: seq<nat>)
    requires k < |hosts| && forall i :: 0 <= i < |order| ==> order[i] < k
    ensures forall i :: 0 <= i < |r| ==> r[i] <= k
    decreases |order|
  {
    if order == [] then [k]
    else
      var m := |order| - 1;
      if hosts[order[m]].load <= hosts[k].load then order + [k]
      else InsertStable(hosts, order[..m], k) + [order[m]]
  }

  /** Every entry after the insertion is the new one or was there before. */
  lemma {:induction false} Inserted(hosts: seq<HostDetail>, order: seq<nat>, k: nat, i: nat)
    requires k < |hosts| && (forall j :: 0 <= j < |order| ==> order[j] < k) && i < |InsertStable(hosts, order, k)|
    ensures var x := InsertStable(hosts, order, k)[i]; x == k || x in order
    decreases |order|
  {
    if order != [] {
      var m := |order| - 1;
      if hosts[order[m]].load > hosts[k].load && i < |InsertStable(hosts, order[..m], k)| {
        Inserted(hosts, order[..m], k, i);
      }
    }
  }

  lemma {:induction false} InsertStablePermutes(hosts: seq<HostDetail>, order: seq<nat>, k: nat)
    requires k < |hosts| && forall i :: 0 <= i < |order| ==> order[i] < k
    ensures multiset(InsertStable(hosts, order, k)) == multiset(order) + multiset{k}
    decreases |order|
  {
    if order != [] {
      var m := |order| - 1;
      assert order == order[..m] + [order[m]];
      if hosts[order[m]].load > hosts[k].load { InsertStablePermutes(hosts, order[..m], k); }
    }
  }

  lemma AppendSorted(hosts: seq<HostDetail>, order: seq<nat>, k: nat)
    requires k < |hosts| && Sorted(hosts, order)
    requires forall i :: 0 <= i < |order| ==> Lighter(hosts, order[i], k)
    ensures Sorted(hosts, order + [k])
  {
  }

  lemma {:induction false} InsertStableSorted(hosts: seq<HostDetail>, order: seq<nat>, k: nat)
    requires k < |hosts| && (forall i :: 0 <= i < |order| ==> order[i] < k) && Sorted(hosts, order)
    ensures Sorted(hosts, InsertStable(hosts, order, k))
    decreases |order|
  {
    if order != [] {
      var m := |order| - 1;
      if hosts[order[m]].load <= hosts[k].load {
        forall i | 0 <= i < |order| ensures Lighter(hosts, order[i], k) {
          assert i == m || Lighter(hosts, order[i], order[m]);
        }
        AppendSorted(hosts, order, k);
      } else {
        InsertStableSorted(hosts, order[..m], k);
        var p := InsertStable(hosts, order[..m], k);
        forall i | 0 <= i < |p| ensures p[i] < |hosts| && Lighter(hosts, p[i], order[m]) {
          Inserted(hosts, order[..m], k, i);
          if p[i] != k {
            var q :| 0 <= q < m && order[q] == p[i];
            assert Lighter(hosts, order[q], order[m]);
          }
        }
        AppendSorted(hosts, p, order[m]);
      }
    }
  }

  /** The first n positions by ascending load, ties in list order. */
  function StableOrder(hosts: seq<HostDetail>, n: nat): (r: seq<nat>)
    requires n <= |hosts|
    ensures forall i :: 0 <= i < |r| ==> r[i] < n
  {
    if n == 0 then [] else InsertStable(hosts, StableOrder(hosts, n - 1), n - 1)
  }

  lemma {:induction false} StableOrderSorts(hosts: seq<HostDetail>, n: nat)
    requires n <= |hosts|
    ensures Sorted(hosts, StableOrder(hosts, n))
    decreases n
  {
    if n > 0 {
      StableOrderSorts(hosts, n - 1);
      InsertStableSorted(hosts, StableOrder(hosts, n - 1), n - 1);
      assert StableOrder(hosts, n) == InsertStable(hosts, StableOrder(hosts, n - 1), n - 1);
    }
  }

  lemma {:induction false} StableOrderIsPerm(hosts: seq<HostDetail>, n: nat)
    requires n <= |hosts|
    ensures IsPerm(StableOrder(hosts, n), n)
    decreases n
  {
    if n > 0 {
      StableOrderIsPerm(hosts, n - 1);
      InsertStablePermutes(hosts, StableOrder(hosts, n - 1), n - 1);
      IotaStep(n, n - 1);
    }
  }

  ghost predicate IsLightest(hosts: seq<HostDetail>, i: nat)
    requires i < |hosts|
  {
    forall j :: 0 <= j < |hosts| ==> hosts[i].load <= hosts[j].load
  }

  /** c lists exactly the positions of minimal load, in list order. */
  ghost predicate IsBest(hosts: seq<HostDetail>, c: seq<nat>) {
    && Positions(hosts, c)
    && (forall i, j :: 0 <= i < j < |c| ==> c[i] < c[j])
    && forall i: nat :: i < |hosts| ==> (i in c <==> IsLightest(hosts, i))
  }

  lemma {:induction false} AscendingUnique(a: seq<nat>, b: seq<nat>)
    requires forall i, j :: 0 <= i < j < |a| ==> a[i] < a[j]
    requires forall i, j :: 0 <= i < j < |b| ==> b[i] < b[j]
    requires forall x :: x in a <==> x in b
    ensures a == b
    decreases |a|
  {
    assert b == [] || b[0] in b;
    if a != [] {
      assert a[0] in a && a[0] in b && b[0] in b && b[0] in a;
      assert a[0] == b[0];
      forall x ensures x in a[1..] <==> x in b[1..] {
        assert x in a[1..] <==> x in a && x != a[0];
        assert x in b[1..] <==> x in b && x != b[0];
      }
      AscendingUnique(a[1..], b[1..]);
    }
  }

  lemma BestUnique(hosts: seq<HostDetail>, c: seq<nat>, d: seq<nat>)
    requires IsBest(hosts, c) && IsBest(hosts, d)
    ensures c == d
  {
    forall x ensures x in c <==> x in d {
      if x in c { assert x < |hosts|; }
      if x in d { assert x < |hosts|; }
    }
    AscendingUnique(c, d);
  }

  /** The leading entries of equal load in a sorted order are exactly the lightest hosts, in list order. */
  lemma LeadingGroupIsBest(hosts: seq<HostDetail>, order: seq<nat>, m: nat)
    requires IsPerm(order, |hosts|) && Sorted(hosts, order) && 0 < m <= |order|
    requires forall i :: 0 <= i < m ==> hosts[order[i]].load == hosts[order[0]].load
    requires m < |order| ==> hosts[order[m]].load != hosts[order[0]].load
    ensures IsBest(hosts, order[..m])
  {
    PermRange(order, |hosts|);
    var c := order[..m];
    forall i: nat | i < |hosts| ensures i in c <==> IsLightest(hosts, i) {
      assert i in order;
      var k :| 0 <= k < |order| && order[k] == i;
      forall j | 0 <= j < |hosts| ensures hosts[order[0]].load <= hosts[j].load {
        assert j in order;
        var q :| 0 <= q < |order| && order[q] == j;
        assert q == 0 || Lighter(hosts, order[0], order[q]);
      }
      if k < m {
        assert c[k] == i;
      } else {
        assert k == m || Lighter(hosts, order[m], order[k]);
        assert Lighter(hosts, order[0], order[m]);
        forall q | 0 <= q < m ensures c[q] != i {
          assert Lighter(hosts, order[q], order[k]);
        }
      }
    }
  }
}
