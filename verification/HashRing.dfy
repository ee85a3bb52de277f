/**
 The consistent-hash ring of a method's hosts: which host owns which point, which point a
 lookup finds, and how the choice moves when a host joins or leaves. The hash function is
 arbitrary, so virtual nodes may collide.
 */
module HashRing {
  import opened Bytes

  datatype HostInfo = HostInfo(ip: string, port: int32)
  datatype HostDetail = HostDetail(host: HostInfo, load: int32)

  type Hash = string -> nat
  type PointMap = map<nat, nat>    // hash value -> position in the host list

  const VIRTUAL_NODES: nat := 160

  function Digit(d: nat): char
    requires d < 10
  {
    ['0', '1', '2', '3', '4', '5', '6', '7', '8', '9'][d]
  }

  function NatToString(n: nat): string {
    if n < 10 then [Digit(n)] else NatToString(n / 10) + [Digit(n % 10)]
  }

  function IntToString(n: int): string { if n < 0 then "-" + NatToString(-n) else NatToString(n) }

  function HostKey(h: HostInfo): string { h.ip + ":" + IntToString(h.port) }

  /** What is hashed for virtual node v of host h. */
  function NodeName(h: HostInfo, v: nat): string { HostKey(h) + "#" + NatToString(v) }

  /** Ring point of virtual node v of host h. */
  function Point(hash: Hash, h: HostInfo, v: nat): nat { hash(NodeName(h, v)) }

  /** The points of the first v virtual nodes of h. */
  function Points(hash: Hash, h: HostInfo, v: nat): set<nat> { set u | 0 <= u < v :: Point(hash, h, u) }

  /** The first v virtual nodes of h, inserted as host number i over whatever was there. */
  function Insert(hash: Hash, ring: PointMap, h: HostInfo, i: nat, v: nat): PointMap {
    map p | p in ring.Keys + Points(hash, h, v) :: if p in Points(hash, h, v) then i else ring[p]
  }

  /** The ring a full rebuild gives. */
  function Build(hash: Hash, hosts: seq<HostInfo>): PointMap {
    if hosts == [] then map[]
    else
      var n := |hosts| - 1;
      Insert(hash, Build(hash, hosts[..n]), hosts[n], n, VIRTUAL_NODES)
  }

  // ----- who owns a point -----

  ghost predicate Owns(hash: Hash, h: HostInfo, p: nat) { p in Points(hash, h, VIRTUAL_NODES) }

  /** i is the last host in the list that has point p. */
  ghost predicate LastOwner(hash: Hash, hosts: seq<HostInfo>, p: nat, i: nat) {
    i < |hosts| && Owns(hash, hosts[i], p) && forall j :: i < j < |hosts| ==> !Owns(hash, hosts[j], p)
  }

  ghost predicate Owned(hash: Hash, hosts: seq<HostInfo>, p: nat) {
    exists i :: 0 <= i < |hosts| && Owns(hash, hosts[i], p)
  }

  lemma OwnedExtend(hash: Hash, hosts: seq<HostInfo>, h: HostInfo, p: nat)
    ensures Owned(hash, hosts + [h], p) <==> Owned(hash, hosts, p) || Owns(hash, h, p)
    ensures forall i :: LastOwner(hash, hosts, p, i) && !Owns(hash, h, p) ==> LastOwner(hash, hosts + [h], p, i)
    ensures Owns(hash, h, p) ==> LastOwner(hash, hosts + [h], p, |hosts|)
  {
    var more := hosts + [h];
    if Owned(hash, hosts, p) {
      var i :| 0 <= i < |hosts| && Owns(hash, hosts[i], p);
      assert Owns(hash, more[i], p);
    }
    if Owns(hash, h, p) { assert Owns(hash, more[|hosts|], p); }
    if Owned(hash, more, p) && !Owns(hash, h, p) {
      var i :| 0 <= i < |more| && Owns(hash, more[i], p);
      assert Owns(hash, hosts[i], p);
    }
  }

  /** The ring maps each owned point to its last owner, and nothing else. */
  lemma {:induction false} BuildOwner(hash: Hash, hosts: seq<HostInfo>, p: nat)
    ensures var r := Build(hash, hosts);
            (p in r <==> Owned(hash, hosts, p)) && (p in r ==> LastOwner(hash, hosts, p, r[p]))
    decreases |hosts|
  {
    if hosts != [] {
      var n := |hosts| - 1;
      BuildOwner(hash, hosts[..n], p);
      OwnedExtend(hash, hosts[..n], hosts[n], p);
      assert hosts == hosts[..n] + [hosts[n]];
    }
  }

  lemma LastOwnerIsBuilt(hash: Hash, hosts: seq<HostInfo>, p: nat, i: nat)
    requires LastOwner(hash, hosts, p, i)
    ensures p in Build(hash, hosts) && Build(hash, hosts)[p] == i
  {
    BuildOwner(hash, hosts, p);
  }

  /** Every host list but the empty one gives a ring with at least one point. */
  lemma RingNonEmpty(hash: Hash, hosts: seq<HostInfo>)
    requires hosts != []
    ensures Point(hash, hosts[0], 0) in Build(hash, hosts)
  {
    assert Owns(hash, hosts[0], Point(hash, hosts[0], 0));
    BuildOwner(hash, hosts, Point(hash, hosts[0], 0));
  }

  // ----- lookup -----

  /** Going clockwise from x, point a comes before point b. */
  predicate Before(x: nat, a: nat, b: nat) {
    if a >= x then b < x || a < b else b < x && a < b
  }

  /** p is the first ring point clockwise from x: lower_bound, wrapping to the smallest point. */
  predicate IsFirst(keys: set<nat>, x: nat, p: nat) {
    p in keys && forall k :: k in keys && k != p ==> Before(x, p, k)
  }

  lemma {:induction false} FirstExists(keys: set<nat>, x: nat)
    requires keys != {}
    ensures exists p :: IsFirst(keys, x, p)
    decreases |keys|
  {
    var p :| p in keys;
    var rest := keys - {p};
    if rest == {} {
      assert keys == {p};
      assert IsFirst(keys, x, p);
    } else {
      FirstExists(rest, x);
      var q :| IsFirst(rest, x, q);
      if Before(x, q, p) {
        assert IsFirst(keys, x, q);
      } else {
        forall k | k in keys && k != p ensures Before(x, p, k) {
          assert k == q || Before(x, q, k);
        }
        assert IsFirst(keys, x, p);
      }
    }
  }

  /** The lookup of the code finds exactly that point: the smallest one not below x, else the smallest of all. */
  lemma FirstIsLowerBound(keys: set<nat>, x: nat, p: nat)
    ensures IsFirst(keys, x, p) <==>
            && p in keys
            && (p >= x ==> forall k :: k in keys && k >= x ==> p <= k)
            && (p < x ==> forall k :: k in keys ==> k < x && p <= k)
  {
  }

  lemma FirstUnique(keys: set<nat>, x: nat, p: nat, q: nat)
    requires IsFirst(keys, x, p) && IsFirst(keys, x, q)
    ensures p == q
  {
  }

  /** The ring point a lookup at hash value x finds. */
  ghost function Found(hash: Hash, hosts: seq<HostInfo>, x: nat): (p: nat)
    requires hosts != []
    ensures IsFirst(Build(hash, hosts).Keys, x, p)
  {
    RingNonEmpty(hash, hosts);
    FirstExists(Build(hash, hosts).Keys, x);
    var p :| IsFirst(Build(hash, hosts).Keys, x, p);
    p
  }

  /** The position of the host that a lookup at hash value x is routed to. */
  ghost function ChoiceAt(hash: Hash, hosts: seq<HostInfo>, x: nat): (i: nat)
    requires hosts != []
    ensures i < |hosts| && LastOwner(hash, hosts, Found(hash, hosts, x), i)
  {
    BuildOwner(hash, hosts, Found(hash, hosts, x));
    Build(hash, hosts)[Found(hash, hosts, x)]
  }

  ghost function Choice(hash: Hash, hosts: seq<HostInfo>, x: nat): HostInfo
    requires hosts != []
  {
    hosts[ChoiceAt(hash, hosts, x)]
  }

  lemma ChoiceIs(hash: Hash, hosts: seq<HostInfo>, x: nat, p: nat, i: nat)
    requires hosts != [] && IsFirst(Build(hash, hosts).Keys, x, p) && LastOwner(hash, hosts, p, i)
    ensures ChoiceAt(hash, hosts, x) == i
  {
    FirstUnique(Build(hash, hosts).Keys, x, p, Found(hash, hosts, x));
    LastOwnerIsBuilt(hash, hosts, p, i);
  }

  function Without(hosts: seq<HostInfo>, j: nat): seq<HostInfo>
    requires j < |hosts|
  {
    hosts[..j] + hosts[j + 1..]
  }

  /** A point keeps its owner when another host leaves, though list positions shift and collisions surface. */
  lemma OwnerSurvivesRemoval(hash: Hash, hosts: seq<HostInfo>, j: nat, p: nat, i: nat)
    requires j < |hosts| && LastOwner(hash, hosts, p, i) && i != j
    ensures var i' := if i < j then i else i - 1;
            LastOwner(hash, Without(hosts, j), p, i') && Without(hosts, j)[i'] == hosts[i]
  {
    var w, i' := Without(hosts, j), if i < j then i else i - 1;
    assert w[i'] == hosts[i];
    forall m | i' < m < |w| ensures !Owns(hash, w[m], p) {
      assert w[m] == hosts[if m < j then m else m + 1];
    }
  }

  lemma RemovalOnlyDropsPoints(hash: Hash, hosts: seq<HostInfo>, j: nat)
    requires j < |hosts|
    ensures Build(hash, Without(hosts, j)).Keys <= Build(hash, hosts).Keys
  {
    var w := Without(hosts, j);
    forall p | p in Build(hash, w) ensures p in Build(hash, hosts) {
      BuildOwner(hash, w, p);
      BuildOwner(hash, hosts, p);
      var m :| 0 <= m < |w| && Owns(hash, w[m], p);
      assert w[m] == hosts[if m < j then m else m + 1];
    }
  }

  /** Removing a host moves only the keys that were routed to it. */
  lemma RemovalIsMinimal(hash: Hash, hosts: seq<HostInfo>, j: nat, x: nat)
    requires j < |hosts| && Choice(hash, hosts, x) != hosts[j]
    ensures Without(hosts, j) != [] && Choice(hash, Without(hosts, j), x) == Choice(hash, hosts, x)
  {
    var w, p, i := Without(hosts, j), Found(hash, hosts, x), ChoiceAt(hash, hosts, x);
    var i' := if i < j then i else i - 1;
    OwnerSurvivesRemoval(hash, hosts, j, p, i);
    FoundSurvivesRemoval(hash, hosts, j, x, i');
    ChoiceIs(hash, w, x, p, i');
  }

  lemma FoundSurvivesRemoval(hash: Hash, hosts: seq<HostInfo>, j: nat, x: nat, i: nat)
    requires j < |hosts| && LastOwner(hash, Without(hosts, j), Found(hash, hosts, x), i)
    ensures IsFirst(Build(hash, Without(hosts, j)).Keys, x, Found(hash, hosts, x))
  {
    LastOwnerIsBuilt(hash, Without(hosts, j), Found(hash, hosts, x), i);
    RemovalOnlyDropsPoints(hash, hosts, j);
  }

  /** Adding a host moves a key only to the new host. */
  lemma AdditionIsMinimal(hash: Hash, hosts: seq<HostInfo>, h: HostInfo, x: nat)
    requires hosts != []
    ensures Choice(hash, hosts + [h], x) == Choice(hash, hosts, x) || Choice(hash, hosts + [h], x) == h
  {
    var more := hosts + [h];
    assert Without(more, |hosts|) == hosts;
    if Choice(hash, more, x) != more[|hosts|] { RemovalIsMinimal(hash, more, |hosts|, x); }
  }

  // ----- names of virtual nodes -----

  predicate IsDigit(c: char) { '0' as int <= c as int <= '9' as int }

  /** The number a decimal numeral stands for. */
  function Decimal(s: string): nat
    requires forall i :: 0 <= i < |s| ==> IsDigit(s[i])
  {
    if s == [] then 0
    else
      var last := s[|s| - 1];
      assert IsDigit(last);
      10 * Decimal(s[..|s| - 1]) + (last as int - '0' as int)
  }

  lemma DigitIs(d: nat)
    requires d < 10
    ensures IsDigit(Digit(d)) && Digit(d) as int - '0' as int == d
  {
  }

  lemma {:induction false} NumeralReadsBack(n: nat)
    ensures NatToString(n) != [] && (forall i :: 0 <= i < |NatToString(n)| ==> IsDigit(NatToString(n)[i]))
    ensures Decimal(NatToString(n)) == n
    decreases n
  {
    if n < 10 {
      DigitIs(n);
      assert [Digit(n)][..0] == [];
    } else {
      var front := NatToString(n / 10);
      NumeralReadsBack(n / 10);
      DigitIs(n % 10);
      assert (front + [Digit(n % 10)])[..|front|] == front;
    }
  }

  lemma SameNumber(m: nat, n: nat)
    requires NatToString(m) == NatToString(n)
    ensures m == n
  {
    NumeralReadsBack(m);
    NumeralReadsBack(n);
  }

  /** Port numerals are digits, with a sign in front of a negative one. */
  lemma PortNumeral(n: int)
    ensures forall i :: 0 <= i < |IntToString(n)| ==> IntToString(n)[i] == '-' || IsDigit(IntToString(n)[i])
    ensures IntToString(n) != [] && (IntToString(n)[0] == '-' <==> n < 0)
  {
    NumeralReadsBack(if n < 0 then -n else n);
  }

  lemma SamePort(m: int, n: int)
    requires IntToString(m) == IntToString(n)
    ensures m == n
  {
    PortNumeral(m);
    PortNumeral(n);
    if m < 0 {
      assert IntToString(m)[1..] == NatToString(-m) && IntToString(n)[1..] == NatToString(-n);
      SameNumber(-m, -n);
    } else {
      SameNumber(m, n);
    }
  }

  lemma NoMarkAfter(a: string, b: string, mark: char)
    requires mark !in b
    ensures var s := a + [mark] + b; forall i :: |a| < i < |s| ==> s[i] != mark
  {
    var s := a + [mark] + b;
    forall i | |a| < i < |s| ensures s[i] != mark { assert s[i] == b[i - |a| - 1]; }
  }

  /** A string has one last occurrence of a mark. */
  lemma SplitAtLast(a: string, b: string, c: string, d: string, mark: char)
    requires mark !in b && mark !in d && a + [mark] + b == c + [mark] + d
    ensures a == c && b == d
  {
    var s := a + [mark] + b;
    NoMarkAfter(a, b, mark);
    NoMarkAfter(c, d, mark);
    assert s[|a|] == mark && s[|c|] == mark;
    assert a == s[..|a|] && c == s[..|c|] && b == s[|a| + 1..] && d == s[|c| + 1..];
  }

  /** Different hosts and different virtual nodes hash different strings. */
  lemma NodeNamesDiffer(g: HostInfo, u: nat, h: HostInfo, v: nat)
    requires NodeName(g, u) == NodeName(h, v)
    ensures g == h && u == v
  {
    NumeralReadsBack(u);
    NumeralReadsBack(v);
    SplitAtLast(HostKey(g), NatToString(u), HostKey(h), NatToString(v), '#');
    SameNumber(u, v);
    PortNumeral(g.port);
    PortNumeral(h.port);
    SplitAtLast(g.ip, IntToString(g.port), h.ip, IntToString(h.port), ':');
    SamePort(g.port, h.port);
  }

  ghost predicate Injective(hash: Hash) { forall s, t :: hash(s) == hash(t) ==> s == t }

  lemma PointsDiffer(hash: Hash, g: HostInfo, u: nat, h: HostInfo, v: nat)
    requires Injective(hash) && (g != h || u != v)
    ensures Point(hash, g, u) != Point(hash, h, v)
  {
    assert NodeName(g, u) != NodeName(h, v) by {
      if NodeName(g, u) == NodeName(h, v) { NodeNamesDiffer(g, u, h, v); }
    }
  }

  lemma {:induction false} PointCount(hash: Hash, h: HostInfo, v: nat)
    requires forall u, w :: 0 <= u < w < v ==> Point(hash, h, u) != Point(hash, h, w)
    ensures |Points(hash, h, v)| == v
    decreases v
  {
    if v == 0 {
      assert Points(hash, h, 0) == {};
    } else {
      var rest, p := Points(hash, h, v - 1), Point(hash, h, v - 1);
      PointCount(hash, h, v - 1);
      assert p !in rest;
      assert Points(hash, h, v) == rest + {p};
    }
  }

  /** Without collisions every host has 160 points of its own. */
  lemma OwnPoints(hash: Hash, g: HostInfo, h: HostInfo)
    requires Injective(hash) && g != h
    ensures |Points(hash, h, VIRTUAL_NODES)| == 160 && Points(hash, g, VIRTUAL_NODES) !! Points(hash, h, VIRTUAL_NODES)
  {
    forall u, w | 0 <= u < w < VIRTUAL_NODES ensures Point(hash, h, u) != Point(hash, h, w) { PointsDiffer(hash, h, u, h, w); }
    PointCount(hash, h, VIRTUAL_NODES);
    forall u, w | 0 <= u < VIRTUAL_NODES && 0 <= w < VIRTUAL_NODES ensures Point(hash, g, u) != Point(hash, h, w) {
      PointsDiffer(hash, g, u, h, w);
    }
  }
}
