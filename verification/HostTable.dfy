/**
 The host list of a method together with its hash ring, as values: what appending and removing
 do to the list, to the ring kept beside it, and to the routing of keys.
 */
module HostTable {
  import opened Bytes
  import opened HashRing

  datatype Table = Table(hosts: seq<HostDetail>, ring: PointMap, built: bool)

  datatype Op = Append(host: HostInfo, load: int32) | Remove(gone: HostInfo)

  function Infos(hosts: seq<HostDetail>): (r: seq<HostInfo>)
    ensures |r| == |hosts| && forall i :: 0 <= i < |hosts| ==> r[i] == hosts[i].host
  {
    seq(|hosts|, i requires 0 <= i < |hosts| => hosts[i].host)
  }

  /** Position of the first entry for host h, or the length of the list. */
  function Find(hosts: seq<HostDetail>, h: HostInfo): (j: nat)
    ensures j <= |hosts| && (j < |hosts| ==> hosts[j].host == h)
    ensures forall i :: 0 <= i < j ==> hosts[i].host != h
  {
    if hosts == [] || hosts[0].host == h then 0 else Find(hosts[1..], h) + 1
  }

  /** appendHost: an entry that exists only has its load replaced; a new one extends the ring in place. */
  function AppendTo(hash: Hash, t: Table, h: HostInfo, load: int32): Table {
    var j := Find(t.hosts, h);
    if j < |t.hosts| then t.(hosts := t.hosts[j := HostDetail(h, load)])
    else
      var hosts := t.hosts + [HostDetail(h, load)];
      if t.built then Table(hosts, Insert(hash, t.ring, h, |t.hosts|, VIRTUAL_NODES), true)
      else Table(hosts, Build(hash, Infos(hosts)), true)
  }

  /** removeHost: the first entry for the host goes, and the ring is rebuilt. */
  function RemoveFrom(hash: Hash, t: Table, h: HostInfo): Table {
    var j := Find(t.hosts, h);
    if j == |t.hosts| then t
    else
      var hosts := t.hosts[..j] + t.hosts[j + 1..];
      Table(hosts, Build(hash, Infos(hosts)), true)
  }

  function ApplyOp(hash: Hash, t: Table, op: Op): Table {
    match op
    case Append(h, load) => AppendTo(hash, t, h, load)
    case Remove(h) => RemoveFrom(hash, t, h)
  }

  function RunOps(hash: Hash, t: Table, ops: seq<Op>): Table
    decreases |ops|
  {
    if ops == [] then t else RunOps(hash, ApplyOp(hash, t, ops[0]), ops[1..])
  }

  /** A built ring is the one a full rebuild would give; an unbuilt one is empty. */
  ghost predicate Agrees(hash: Hash, t: Table) {
    t.ring == if t.built then Build(hash, Infos(t.hosts)) else map[]
  }

  lemma AppendAgrees(hash: Hash, t: Table, h: HostInfo, load: int32)
    requires Agrees(hash, t)
    ensures Agrees(hash, AppendTo(hash, t, h, load))
  {
    var j := Find(t.hosts, h);
    if j < |t.hosts| {
      assert Infos(t.hosts[j := HostDetail(h, load)]) == Infos(t.hosts);
    } else {
      var more := Infos(t.hosts + [HostDetail(h, load)]);
      assert more[..|t.hosts|] == Infos(t.hosts) && more[|t.hosts|] == h;
    }
  }

  /** An append puts the host and its load in the list: in its place if it is there, else at the end. Nothing else changes. */
  lemma AppendContents(hash: Hash, t: Table, h: HostInfo, load: int32)
    ensures var u, j := AppendTo(hash, t, h, load), Find(t.hosts, h);
            && u.hosts[..j] == t.hosts[..j] && j < |u.hosts| && u.hosts[j] == HostDetail(h, load)
            && u.hosts[j + 1..] == (if j < |t.hosts| then t.hosts[j + 1..] else [])
            && (j < |t.hosts| ==> u.built == t.built) && (j == |t.hosts| ==> u.built)
  {
  }

  /** A removal takes out the first entry for the host and keeps the others in order. */
  lemma RemoveContents(hash: Hash, t: Table, h: HostInfo)
    ensures var u, j := RemoveFrom(hash, t, h), Find(t.hosts, h);
            && u.hosts[..j] == t.hosts[..j]
            && u.hosts[j..] == (if j < |t.hosts| then t.hosts[j + 1..] else [])
            && (j < |t.hosts| ==> u.built)
  {
  }

  /** The hosts an observer of the operations expects: those appended and not removed since. */
  ghost predicate Expected(h: HostInfo, was: bool, ops: seq<Op>)
    decreases |ops|
  {
    if ops == [] then was
    else
      var last := ops[|ops| - 1];
      if last.Append? && last.host == h then true
      else if last.Remove? && last.gone == h then false
      else Expected(h, was, ops[..|ops| - 1])
  }

  ghost predicate Listed(t: Table, h: HostInfo) { Find(t.hosts, h) < |t.hosts| }

  /** No host is listed twice. */
  ghost predicate Distinct(hosts: seq<HostDetail>) {
    forall i, j :: 0 <= i < j < |hosts| ==> hosts[i].host != hosts[j].host
  }

  lemma OpKeepsDistinct(hash: Hash, t: Table, op: Op)
    requires Distinct(t.hosts)
    ensures Distinct(ApplyOp(hash, t, op).hosts)
  {
    var j := Find(t.hosts, if op.Append? then op.host else op.gone);
    if op.Append? { PutKeepsDistinct(t.hosts, j, HostDetail(op.host, op.load)); }
    else if j < |t.hosts| { DropKeepsDistinct(t.hosts, j); }
  }

  lemma PutKeepsDistinct(hosts: seq<HostDetail>, j: nat, d: HostDetail)
    requires Distinct(hosts) && j <= |hosts| && (j < |hosts| ==> hosts[j].host == d.host)
    requires forall i :: 0 <= i < j ==> hosts[i].host != d.host
    ensures Distinct(if j < |hosts| then hosts[j := d] else hosts + [d])
  {
  }

  lemma DropKeepsDistinct(hosts: seq<HostDetail>, j: nat)
    requires Distinct(hosts) && j < |hosts|
    ensures Distinct(hosts[..j] + hosts[j + 1..])
  {
    var rest := hosts[..j] + hosts[j + 1..];
    assert forall i :: 0 <= i < |rest| ==> rest[i] == hosts[if i < j then i else i + 1];
  }

  lemma ListedIs(t: Table, h: HostInfo)
    ensures Listed(t, h) <==> exists i :: 0 <= i < |t.hosts| && t.hosts[i].host == h
  {
    if Listed(t, h) { assert t.hosts[Find(t.hosts, h)].host == h; }
  }

  lemma OpLists(hash: Hash, t: Table, op: Op, h: HostInfo)
    requires Distinct(t.hosts)
    ensures Listed(ApplyOp(hash, t, op), h) <==>
            (op.Append? && op.host == h) || (Listed(t, h) && !(op.Remove? && op.gone == h))
  {
    var u := ApplyOp(hash, t, op);
    ListedIs(t, h);
    ListedIs(u, h);
    if op.Append? { AppendLists(hash, t, op.host, op.load, h); } else { RemoveLists(hash, t, op.gone, h); }
  }

  lemma AppendLists(hash: Hash, t: Table, g: HostInfo, load: int32, h: HostInfo)
    ensures Listed(AppendTo(hash, t, g, load), h) <==> g == h || Listed(t, h)
  {
    var u, j := AppendTo(hash, t, g, load), Find(t.hosts, g);
    ListedIs(t, h);
    ListedIs(u, h);
    assert u.hosts[j].host == g;
    if Listed(t, h) { assert u.hosts[Find(t.hosts, h)].host == h; }
  }

  lemma RemoveLists(hash: Hash, t: Table, g: HostInfo, h: HostInfo)
    requires Distinct(t.hosts)
    ensures Listed(RemoveFrom(hash, t, g), h) <==> g != h && Listed(t, h)
  {
    var u, j := RemoveFrom(hash, t, g), Find(t.hosts, g);
    ListedIs(t, h);
    ListedIs(u, h);
    if g != h && Listed(t, h) && j < |t.hosts| {
      var i := Find(t.hosts, h);
      assert u.hosts[if i < j then i else i - 1].host == h;
    }
  }

  /** After any operations on a list without duplicates, exactly the hosts appended and not removed since are listed, each once. */
  lemma {:induction false} ListsExpected(hash: Hash, t: Table, ops: seq<Op>, h: HostInfo)
    requires Distinct(t.hosts)
    ensures Distinct(RunOps(hash, t, ops).hosts)
    ensures Listed(RunOps(hash, t, ops), h) <==> Expected(h, Listed(t, h), ops)
    decreases |ops|
  {
    if ops != [] {
      var n := |ops| - 1;
      var s := RunOps(hash, t, ops[..n]);
      ListsExpected(hash, t, ops[..n], h);
      OpsSnoc(hash, t, ops[..n], ops[n]);
      assert ops == ops[..n] + [ops[n]];
      OpLists(hash, s, ops[n], h);
      OpKeepsDistinct(hash, s, ops[n]);
    }
  }

  lemma {:induction false} OpsSnoc(hash: Hash, t: Table, ops: seq<Op>, op: Op)
    ensures RunOps(hash, t, ops + [op]) == ApplyOp(hash, RunOps(hash, t, ops), op)
    decreases |ops|
  {
    if ops == [] {
      assert ([] + [op])[1..] == [];
    } else {
      assert (ops + [op])[0] == ops[0] && (ops + [op])[1..] == ops[1..] + [op];
      OpsSnoc(hash, ApplyOp(hash, t, ops[0]), ops[1..], op);
    }
  }

  lemma {:induction false} RunAgrees(hash: Hash, t: Table, ops: seq<Op>)
    requires Agrees(hash, t)
    ensures Agrees(hash, RunOps(hash, t, ops))
    decreases |ops|
  {
    if ops != [] {
      if ops[0].Append? { AppendAgrees(hash, t, ops[0].host, ops[0].load); }
      RunAgrees(hash, ApplyOp(hash, t, ops[0]), ops[1..]);
    }
  }

  /** After any appends and removals on any starting list, the ring equals a full rebuild and holds only valid positions. */
  lemma IncrementalRingExact(hash: Hash, hosts: seq<HostDetail>, ops: seq<Op>)
    ensures var t := RunOps(hash, Table(hosts, map[], false), ops);
            && (t.built ==> t.ring == Build(hash, Infos(t.hosts)))
            && forall p :: p in t.ring ==> t.ring[p] < |t.hosts|
  {
    var t := RunOps(hash, Table(hosts, map[], false), ops);
    RunAgrees(hash, Table(hosts, map[], false), ops);
    forall p | p in t.ring ensures t.ring[p] < |t.hosts| {
      BuildOwner(hash, Infos(t.hosts), p);
    }
  }

  // ----- routing -----

  /** The host a key hashing to x is routed to. */
  ghost function Route(hash: Hash, t: Table, x: nat): HostInfo
    requires t.hosts != []
  {
    Choice(hash, Infos(t.hosts), x)
  }

  lemma RemovalView(hash: Hash, t: Table, h: HostInfo)
    requires Agrees(hash, t) && t.built
    ensures var j, u := Find(t.hosts, h), RemoveFrom(hash, t, h);
            && Agrees(hash, u) && u.built
            && Infos(u.hosts) == if j < |t.hosts| then Without(Infos(t.hosts), j) else Infos(t.hosts)
  {
    var j := Find(t.hosts, h);
    if j < |t.hosts| { InfosWithout(t.hosts, j); }
  }

  lemma InfosWithout(hosts: seq<HostDetail>, j: nat)
    requires j < |hosts|
    ensures Infos(hosts[..j] + hosts[j + 1..]) == Without(Infos(hosts), j)
  {
  }

  lemma InfosAppend(hosts: seq<HostDetail>, h: HostInfo, load: int32)
    ensures Infos(hosts + [HostDetail(h, load)]) == Infos(hosts) + [h]
  {
  }

  lemma InfosUpdate(hosts: seq<HostDetail>, j: nat, load: int32)
    requires j < |hosts|
    ensures Infos(hosts[j := HostDetail(hosts[j].host, load)]) == Infos(hosts)
  {
  }

  /** A removal re-routes only keys that were routed to the removed host. */
  lemma RemoveReroutesOnlyItsKeys(hash: Hash, t: Table, h: HostInfo, x: nat)
    requires Agrees(hash, t) && t.built && t.hosts != [] && Route(hash, t, x) != h
    ensures var u := RemoveFrom(hash, t, h);
            Agrees(hash, u) && u.built && u.hosts != [] && Route(hash, u, x) == Route(hash, t, x)
  {
    var j, infos := Find(t.hosts, h), Infos(t.hosts);
    RemovalView(hash, t, h);
    if j < |t.hosts| { RemovalIsMinimal(hash, infos, j, x); }
  }

  /** An append re-routes a key only to the appended host; a load update re-routes none. */
  lemma {:induction false} AppendReroutesOnlyToIt(hash: Hash, t: Table, h: HostInfo, load: int32, x: nat)
    requires Agrees(hash, t) && t.built && t.hosts != []
    ensures var u := AppendTo(hash, t, h, load);
            && Agrees(hash, u) && u.built && u.hosts != []
            && (Route(hash, u, x) == Route(hash, t, x) || Route(hash, u, x) == h)
            && (Find(t.hosts, h) < |t.hosts| ==> Route(hash, u, x) == Route(hash, t, x))
  {
    var j, u := Find(t.hosts, h), AppendTo(hash, t, h, load);
    AppendAgrees(hash, t, h, load);
    if j < |t.hosts| {
      InfosUpdate(t.hosts, j, load);
    } else {
      InfosAppend(t.hosts, h, load);
      AdditionIsMinimal(hash, Infos(t.hosts), h, x);
    }
  }
}
