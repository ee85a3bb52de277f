/**
 Any number of electors over one linearizable store with leases. Every request may be delayed,
 lost before or after it takes effect, or served after its sender gave up; leases may expire at
 any moment.
 */
module LeaderElection {
  import opened Options

  type Inst = string
  type Lease = nat
  type Tag = nat

  datatype Request = Grant | Txn(who: Inst, with: Lease) | KeepAlive(held: Lease) | Revoke(dropped: Lease)
  datatype Answer = Granted(lease: Lease) | TxnDone(succeeded: bool) | KeptAlive(alive: bool) | Revoked

  datatype Pc =
    | Idle
    | WaitGrant(tag: Tag)                 // tryBecomeLeader
    | WaitTxn(tag: Tag, lease: Lease)
    | WaitCleanup(tag: Tag)               // lost the election: revoking the unused lease
    | WaitKeepAlive(tag: Tag)             // refreshLease
    | WaitRevoke(tag: Tag)                // becomeFollower or stop

  datatype Elector = Elector(isLeader: bool, lease: Option<Lease>, pc: Pc, ticks: nat)

  datatype State = State(
    live: set<Lease>, key: Option<(Inst, Lease)>, nextLease: Lease,
    won: map<Lease, Inst>,                // leases under which the key was created, and by whom
    sent: map<Tag, Request>, answers: map<Tag, Answer>, nextTag: Tag,
    electors: map<Inst, Elector>)

  datatype Action =
    | Tick(e: Inst)
    | Stop(e: Inst)
    | Receive(e: Inst)      // the answer to the outstanding request arrives
    | GiveUp(e: Inst)       // it does not, or cannot be read
    | Serve(tag: Tag)       // the store handles a request
    | Expire(lease: Lease)

  function Init(ids: set<Inst>): State {
    State({}, None, 0, map[], map[], map[], 0, map e | e in ids :: Elector(false, None, Idle, 0))
  }

  function Put(s: State, e: Inst, x: Elector): State { s.(electors := s.electors[e := x]) }

  /** Send a request and wait for it at pc. */
  function Post(s: State, e: Inst, r: Request, x: Elector): State {
    Put(s.(sent := s.sent[s.nextTag := r], nextTag := s.nextTag + 1), e, x)
  }

  function Ended(x: Elector): Elector { x.(pc := Idle, ticks := x.ticks + 1) }

  // ----- the store -----

  function DropLease(s: State, l: Lease): State {
    s.(live := s.live - {l}, key := if s.key.Some? && s.key.value.1 == l then None else s.key)
  }

  function ServeStep(s: State, tag: Tag): State
    requires tag in s.sent
  {
    match s.sent[tag]
    case Grant =>
      s.(live := s.live + {s.nextLease}, nextLease := s.nextLease + 1, answers := s.answers[tag := Granted(s.nextLease)])
    case Txn(e, l) =>
      if s.key.None? && l in s.live then
        s.(key := Some((e, l)), won := s.won[l := e], answers := s.answers[tag := TxnDone(true)])
      else s.(answers := s.answers[tag := TxnDone(false)])
    case KeepAlive(l) => s.(answers := s.answers[tag := KeptAlive(l in s.live)])
    case Revoke(l) => DropLease(s, l).(answers := s.answers[tag := Revoked])
  }

  // ----- an elector -----

  /** What an elector does next: change its own record, or also send a request and wait for it. */
  datatype Reaction = Becomes(next: Elector) | Asks(request: Request, next: Elector)

  /** becomeFollower and stop: revoke the lease if there is one, then step down. */
  function StepDown(x: Elector, tag: Tag): Reaction {
    if x.lease.Some? then Asks(Revoke(x.lease.value), x.(pc := WaitRevoke(tag)))
    else Becomes(Ended(x.(isLeader := false)))
  }

  function OnTick(x: Elector, tag: Tag): Reaction {
    if !x.isLeader then Asks(Grant, x.(pc := WaitGrant(tag)))
    else if x.lease.Some? then Asks(KeepAlive(x.lease.value), x.(pc := WaitKeepAlive(tag)))
    else StepDown(x, tag)
  }

  /** What elector e does with the answer to its request; None is an empty or unreadable response. */
  function OnAnswer(e: Inst, x: Elector, tag: Tag, a: Option<Answer>): Reaction {
    match x.pc
    case Idle => Becomes(x)
    case WaitGrant(_) =>
      if a.Some? && a.value.Granted? then Asks(Txn(e, a.value.lease), x.(pc := WaitTxn(tag, a.value.lease)))
      else Becomes(Ended(x))
    case WaitTxn(_, l) =>
      if a == Some(TxnDone(true)) then Becomes(Ended(x.(isLeader := true, lease := Some(l))))
      else Asks(Revoke(l), x.(pc := WaitCleanup(tag)))
    case WaitCleanup(_) => Becomes(Ended(x))
    case WaitKeepAlive(_) => if a == Some(KeptAlive(true)) then Becomes(Ended(x)) else StepDown(x, tag)
    case WaitRevoke(_) => Becomes(Ended(x.(isLeader := false, lease := None)))
  }

  function Perform(s: State, e: Inst, r: Reaction): State {
    match r
    case Becomes(x) => Put(s, e, x)
    case Asks(q, x) => Post(s, e, q, x)
  }

  /** The answer to the elector's outstanding request, if it is there. */
  function Answered(s: State, x: Elector): Option<Answer> {
    if !x.pc.Idle? && x.pc.tag in s.answers then Some(s.answers[x.pc.tag]) else None
  }

  predicate OfElector(a: Action) { a.Tick? || a.Stop? || a.Receive? || a.GiveUp? }

  /** The reaction of an elector to an action of its own; a disabled action leaves it as it is. */
  function React(s: State, a: Action, x: Elector): Reaction
    requires OfElector(a)
  {
    match a
    case Tick(_) => if x.pc.Idle? then OnTick(x, s.nextTag) else Becomes(x)
    case Stop(_) => if x.pc.Idle? then StepDown(x, s.nextTag) else Becomes(x)
    case Receive(e) =>
      if Answered(s, x).Some? then OnAnswer(e, x, s.nextTag, Answered(s, x)) else Becomes(x)
    case GiveUp(e) => OnAnswer(e, x, s.nextTag, None)
  }

  function Apply(s: State, a: Action): State {
    match a
    case Serve(tag) => if tag in s.sent && tag !in s.answers then ServeStep(s, tag) else s
    case Expire(l) => DropLease(s, l)
    case _ => if a.e in s.electors then Perform(s, a.e, React(s, a, s.electors[a.e])) else s
  }

  function Run(s: State, acts: seq<Action>): State
    decreases |acts|
  {
    if acts == [] then s else Run(Apply(s, acts[0]), acts[1..])
  }

  // ----- safety -----

  ghost predicate StoreInv(s: State) {
    && (forall l :: l in s.live ==> l < s.nextLease)
    && (forall l :: l in s.won ==> l < s.nextLease)
    && (s.key.Some? ==> s.key.value.1 in s.live && s.key.value.1 in s.won)
    && (forall l :: l in s.won && l in s.live ==> s.key == Some((s.won[l], l)))
  }

  ghost predicate WireInv(s: State) {
    && (forall g :: g in s.sent ==> g < s.nextTag)
    && s.answers.Keys <= s.sent.Keys
    && forall g :: g in s.answers && s.sent[g].Txn? && s.answers[g] == TxnDone(true) ==>
         s.sent[g].with in s.won && s.won[s.sent[g].with] == s.sent[g].who
  }

  ghost predicate ElectorInv(s: State, e: Inst, x: Elector) {
    && (x.isLeader ==> x.lease.Some? && x.lease.value in s.won && s.won[x.lease.value] == e)
    && (x.pc.WaitTxn? ==> x.pc.tag in s.sent && s.sent[x.pc.tag] == Txn(e, x.pc.lease))
    && (x.isLeader ==>
          x.pc.Idle? || x.pc.WaitRevoke?
          || (x.pc.WaitKeepAlive? && x.pc.tag in s.sent && s.sent[x.pc.tag] == KeepAlive(x.lease.value)))
  }

  ghost predicate Inv(s: State) {
    StoreInv(s) && WireInv(s) && forall e :: e in s.electors ==> ElectorInv(s, e, s.electors[e])
  }

  lemma DropKeeps(s: State, l: Lease)
    requires StoreInv(s)
    ensures StoreInv(DropLease(s, l))
  {
  }

  lemma ServeStore(s: State, tag: Tag)
    requires StoreInv(s) && tag in s.sent
    ensures StoreInv(ServeStep(s, tag))
  {
    if s.sent[tag].Revoke? { DropKeeps(s, s.sent[tag].dropped); }
  }

  /** Serving touches neither electors nor requests, and forgets no winner. */
  lemma ServeFrame(s: State, tag: Tag)
    requires StoreInv(s) && tag in s.sent
    ensures var t := ServeStep(s, tag);
            && t.electors == s.electors && t.sent == s.sent && t.nextTag == s.nextTag
            && forall l :: l in s.won ==> l in t.won && t.won[l] == s.won[l]
  {
  }

  lemma ServeAnswer(s: State, tag: Tag)
    requires tag in s.sent
    ensures var t, q := ServeStep(s, tag), s.sent[tag];
            && t.answers.Keys == s.answers.Keys + {tag} && (forall g :: g in s.answers && g != tag ==> t.answers[g] == s.answers[g])
            && (q.Txn? && t.answers[tag] == TxnDone(true) ==> q.with in t.won && t.won[q.with] == q.who)
  {
  }

  lemma ServeWire(s: State, tag: Tag)
    requires StoreInv(s) && WireInv(s) && tag in s.sent && tag !in s.answers
    ensures WireInv(ServeStep(s, tag))
  {
    ServeFrame(s, tag);
    ServeAnswer(s, tag);
  }

  lemma ServeKeeps(s: State, tag: Tag)
    requires Inv(s) && tag in s.sent && tag !in s.answers
    ensures Inv(ServeStep(s, tag))
  {
    ServeStore(s, tag);
    ServeWire(s, tag);
    ServeFrame(s, tag);
    var t := ServeStep(s, tag);
    forall e | e in t.electors ensures ElectorInv(t, e, t.electors[e]) {
      assert ElectorInv(s, e, s.electors[e]);
    }
  }

  /** What an elector's reaction must establish for itself: its claims and the requests it waits for. */
  ghost predicate Sound(s: State, e: Inst, r: Reaction) {
    var x := r.next;
    && (x.isLeader ==> x.lease.Some? && x.lease.value in s.won && s.won[x.lease.value] == e)
    && (x.pc.WaitTxn? ==> Awaits(s, r, x.pc.tag, Txn(e, x.pc.lease)))
    && (x.isLeader ==>
          x.pc.Idle? || x.pc.WaitRevoke?
          || (x.pc.WaitKeepAlive? && Awaits(s, r, x.pc.tag, KeepAlive(x.lease.value))))
  }

  /** The request under this tag is q: already sent, or the one the reaction sends. */
  ghost predicate Awaits(s: State, r: Reaction, tag: Tag, q: Request) {
    (tag in s.sent && s.sent[tag] == q) || (tag == s.nextTag && r == Asks(q, r.next))
  }

  lemma ReactionSound(s: State, a: Action, x: Elector)
    requires OfElector(a) && WireInv(s) && ElectorInv(s, a.e, x)
    ensures Sound(s, a.e, React(s, a, x))
  {
  }

  /** A sound reaction of one elector keeps what holds of it and of the others. */
  lemma PerformKeeps(s: State, e: Inst, r: Reaction)
    requires Inv(s) && e in s.electors && Sound(s, e, r)
    ensures Inv(Perform(s, e, r))
  {
    var t := Perform(s, e, r);
    assert s.nextTag !in s.sent;
    forall i | i in t.electors ensures ElectorInv(t, i, t.electors[i]) {
      if i != e { assert ElectorInv(s, i, s.electors[i]); }
    }
  }

  lemma ExpireKeeps(s: State, l: Lease)
    requires Inv(s)
    ensures Inv(DropLease(s, l))
  {
    DropKeeps(s, l);
    var t := DropLease(s, l);
    forall e | e in t.electors ensures ElectorInv(t, e, t.electors[e]) {
      assert ElectorInv(s, e, s.electors[e]);
    }
  }

  lemma StepKeeps(s: State, a: Action)
    requires Inv(s)
    ensures Inv(Apply(s, a))
  {
    match a
    case Serve(tag) => if tag in s.sent && tag !in s.answers { ServeKeeps(s, tag); }
    case Expire(l) => ExpireKeeps(s, l);
    case _ =>
      if a.e in s.electors {
        assert ElectorInv(s, a.e, s.electors[a.e]);
        ReactionSound(s, a, s.electors[a.e]);
        PerformKeeps(s, a.e, React(s, a, s.electors[a.e]));
      }
  }

  lemma {:induction false} RunKeeps(s: State, acts: seq<Action>)
    requires Inv(s)
    ensures Inv(Run(s, acts))
    decreases |acts|
  {
    if acts != [] {
      StepKeeps(s, acts[0]);
      RunKeeps(Apply(s, acts[0]), acts[1..]);
    }
  }

  /** Instance e believes it leads, and its lease is alive. */
  ghost predicate Leads(s: State, e: Inst) {
    e in s.electors && s.electors[e].isLeader && s.electors[e].lease.Some? && s.electors[e].lease.value in s.live
  }

  /** In every run at most one instance leads with a live lease, and the leader key names it and its lease. */
  lemma OneLiveLeader(ids: set<Inst>, acts: seq<Action>, e: Inst)
    requires Leads(Run(Init(ids), acts), e)
    ensures var s := Run(Init(ids), acts);
            && s.key == Some((e, s.electors[e].lease.value))
            && forall i :: Leads(s, i) ==> i == e
  {
    var s := Run(Init(ids), acts);
    RunKeeps(Init(ids), acts);
    assert ElectorInv(s, e, s.electors[e]);
    forall i | Leads(s, i) ensures i == e {
      assert ElectorInv(s, i, s.electors[i]);
    }
  }

  /**
   When a claim is good: an instance that reports leadership holds a lease, and the leader key
   names it under that lease exactly when the lease is live.
   */
  lemma ClaimIsGoodExactly(ids: set<Inst>, acts: seq<Action>, e: Inst)
    requires var s := Run(Init(ids), acts); e in s.electors && s.electors[e].isLeader
    ensures var s := Run(Init(ids), acts);
            && s.electors[e].lease.Some?
            && (s.electors[e].lease.value in s.live <==> s.key == Some((e, s.electors[e].lease.value)))
            && (Leads(s, e) <==> s.key == Some((e, s.electors[e].lease.value)))
  {
    var s := Run(Init(ids), acts);
    RunKeeps(Init(ids), acts);
    assert ElectorInv(s, e, s.electors[e]);
  }

  // ----- stepping down -----

  ghost predicate WireOk(s: State) { (forall g :: g in s.sent ==> g < s.nextTag) && s.answers.Keys <= s.sent.Keys }

  /** The elector holds no claim under l and can no longer win one. */
  ghost predicate Shed(s: State, x: Elector, l: Lease) {
    && x.lease != Some(l)
    && (x.pc.WaitTxn? && x.pc.lease == l ==>
          x.pc.tag in s.sent && s.sent[x.pc.tag].Txn? && s.sent[x.pc.tag].with == l
          && (x.pc.tag in s.answers ==> s.answers[x.pc.tag] == TxnDone(false)))
  }

  /** The elector still claims under the dead lease l; doomed says that its current tick cannot save the claim. */
  ghost predicate Clinging(s: State, x: Elector, l: Lease, doomed: bool) {
    && x.isLeader && x.lease == Some(l)
    && (x.pc.Idle? || x.pc.WaitRevoke?
        || (x.pc.WaitKeepAlive? && x.pc.tag in s.sent && s.sent[x.pc.tag] == KeepAlive(l)
            && (doomed && x.pc.tag in s.answers ==> s.answers[x.pc.tag] == KeptAlive(false))))
  }

  /** Where an elector stands on its way out of a claim under the dead lease l, n ticks after the start of the count. */
  ghost predicate Fades(s: State, x: Elector, l: Lease, n: int) {
    && x.ticks >= n
    && (Shed(s, x, l) || (x.ticks == n && Clinging(s, x, l, false)) || (x.ticks == n + 1 && Clinging(s, x, l, true)))
  }

  /** From a leader whose lease l is dead through the tick under way, the n-th, and the next. */
  ghost predicate Fading(s: State, e: Inst, l: Lease, n: int) {
    l !in s.live && l < s.nextLease && WireOk(s) && e in s.electors && Fades(s, s.electors[e], l, n)
  }

  /** Serving a request while l is dead neither brings l back nor answers in its favour. */
  lemma ServeDead(s: State, tag: Tag, l: Lease)
    requires WireOk(s) && tag in s.sent && tag !in s.answers && l !in s.live && l < s.nextLease
    ensures var t, q := ServeStep(s, tag), s.sent[tag];
            && WireOk(t) && l !in t.live && l < t.nextLease && t.electors == s.electors && t.sent == s.sent
            && t.answers == s.answers[tag := t.answers[tag]]
            && (q.Txn? && q.with == l ==> t.answers[tag] == TxnDone(false))
            && (q == KeepAlive(l) ==> t.answers[tag] == KeptAlive(false))
  {
  }

  lemma ServeFades(s: State, tag: Tag, x: Elector, l: Lease, n: int)
    requires WireOk(s) && tag in s.sent && tag !in s.answers && l !in s.live && l < s.nextLease && Fades(s, x, l, n)
    ensures Fades(ServeStep(s, tag), x, l, n)
  {
    ServeDead(s, tag, l);
  }

  /** A request that someone sends now leaves the older ones, and what they wait for, as they were. */
  lemma SendFades(s: State, q: Request, x: Elector, l: Lease, n: int)
    requires WireOk(s) && Fades(s, x, l, n)
    ensures var t := s.(sent := s.sent[s.nextTag := q], nextTag := s.nextTag + 1);
            WireOk(t) && Fades(t, x, l, n)
  {
    assert s.nextTag !in s.sent;
  }

  /** The elector's own reaction, seen in the state in which its request is out. */
  function Sending(s: State, r: Reaction): State {
    if r.Asks? then s.(sent := s.sent[s.nextTag := r.request], nextTag := s.nextTag + 1) else s
  }

  lemma ShedReacts(s: State, a: Action, x: Elector, l: Lease)
    requires OfElector(a) && WireOk(s) && Shed(s, x, l)
    ensures var r := React(s, a, x); Shed(Sending(s, r), r.next, l) && r.next.ticks >= x.ticks
  {
    assert s.nextTag !in s.sent;
  }

  lemma ClingingReacts(s: State, a: Action, x: Elector, l: Lease, doomed: bool)
    requires OfElector(a) && WireOk(s) && Clinging(s, x, l, doomed)
    ensures var r := React(s, a, x);
            || (Shed(Sending(s, r), r.next, l) && r.next.ticks >= x.ticks)
            || (Clinging(Sending(s, r), r.next, l, doomed) && r.next.ticks == x.ticks)
            || (!doomed && Clinging(Sending(s, r), r.next, l, true) && r.next.ticks == x.ticks + 1)
  {
    assert s.nextTag !in s.sent;
  }

  lemma ReactionFades(s: State, a: Action, x: Elector, l: Lease, n: int)
    requires OfElector(a) && WireOk(s) && Fades(s, x, l, n)
    ensures var r := React(s, a, x); Fades(Sending(s, r), r.next, l, n)
  {
    if Shed(s, x, l) { ShedReacts(s, a, x, l); } else { ClingingReacts(s, a, x, l, x.ticks == n + 1); }
  }

  lemma PerformIs(s: State, e: Inst, r: Reaction)
    ensures Perform(s, e, r) == Sending(s, r).(electors := s.electors[e := r.next])
  {
  }

  /** What Fades says of an elector does not depend on the other electors. */
  lemma FadesAlone(s: State, t: State, x: Elector, l: Lease, n: int)
    requires t == s.(electors := t.electors) && Fades(s, x, l, n)
    ensures Fades(t, x, l, n)
  {
  }

  lemma SendingKeepsWire(s: State, r: Reaction)
    requires WireOk(s)
    ensures WireOk(Sending(s, r))
  {
  }

  lemma FadingReact(s: State, e: Inst, l: Lease, n: int, a: Action)
    requires Fading(s, e, l, n) && OfElector(a) && a.e in s.electors
    ensures Fading(Apply(s, a), e, l, n)
  {
    var r := React(s, a, s.electors[a.e]);
    var u := Sending(s, r);
    SendingKeepsWire(s, r);
    PerformIs(s, a.e, r);
    if a.e == e {
      ReactionFades(s, a, s.electors[e], l, n);
      FadesAlone(u, Apply(s, a), r.next, l, n);
    } else {
      if r.Asks? { SendFades(s, r.request, s.electors[e], l, n); }
      FadesAlone(u, Apply(s, a), s.electors[e], l, n);
    }
  }

  lemma FadingStep(s: State, e: Inst, l: Lease, n: int, a: Action)
    requires Fading(s, e, l, n)
    ensures Fading(Apply(s, a), e, l, n)
  {
    match a
    case Serve(tag) => if tag in s.sent && tag !in s.answers {
      ServeDead(s, tag, l);
      ServeFades(s, tag, s.electors[e], l, n);
    }
    case Expire(_) =>
    case _ => if a.e in s.electors { FadingReact(s, e, l, n, a); }
  }

  lemma {:induction false} FadingRun(s: State, e: Inst, l: Lease, n: int, acts: seq<Action>)
    requires Fading(s, e, l, n)
    ensures Fading(Run(s, acts), e, l, n)
    decreases |acts|
  {
    if acts != [] {
      FadingStep(s, e, l, n, acts[0]);
      FadingRun(Apply(s, acts[0]), e, l, n, acts[1..]);
    }
  }

  /**
   A leader whose lease is dead gives up its claim: by the end of its next tick if it stands between
   ticks, by the end of the one after if a tick is under way. It never claims under that lease again.
   */
  lemma DeadLeaseIsShed(ids: set<Inst>, before: seq<Action>, after: seq<Action>, e: Inst)
    requires var s := Run(Init(ids), before); e in s.electors && s.electors[e].isLeader && !Leads(s, e)
    ensures var s := Run(Init(ids), before);
            var t := Run(s, after);
            && e in t.electors && s.electors[e].lease.Some?
            && (t.electors[e].ticks >= s.electors[e].ticks + (if s.electors[e].pc.Idle? then 1 else 2) ==>
                  t.electors[e].lease != s.electors[e].lease)
  {
    var s := Run(Init(ids), before);
    RunKeeps(Init(ids), before);
    assert ElectorInv(s, e, s.electors[e]);
    var x := s.electors[e];
    FadingRun(s, e, x.lease.value, if x.pc.Idle? then x.ticks - 1 else x.ticks, after);
  }

  /** At the end of the next tick such a leader, if it stood between ticks, is a follower. */
  lemma DeadLeaseStepsDown(ids: set<Inst>, before: seq<Action>, after: seq<Action>, e: Inst)
    requires var s := Run(Init(ids), before);
             e in s.electors && s.electors[e].pc.Idle? && s.electors[e].isLeader && !Leads(s, e)
    ensures var s := Run(Init(ids), before);
            var t := Run(s, after);
            e in t.electors
            && (t.electors[e].ticks == s.electors[e].ticks + 1 && t.electors[e].pc.Idle? ==> !t.electors[e].isLeader)
  {
    var s := Run(Init(ids), before);
    RunKeeps(Init(ids), before);
    assert ElectorInv(s, e, s.electors[e]);
    DeadLeaseIsShed(ids, before, after, e);
    KeepsClaimForATick(s, e, s.electors[e].lease, s.electors[e].ticks, after);
  }

  /** Within one tick an elector that led under a lease at its start still does, or leads no more. */
  ghost predicate SameTick(s: State, e: Inst, lease: Option<Lease>, n: nat) {
    e in s.electors &&
    var x := s.electors[e];
    && x.ticks >= n
    && (x.ticks == n ==> x.isLeader && x.lease == lease && (x.pc.Idle? || x.pc.WaitKeepAlive? || x.pc.WaitRevoke?))
    && (x.ticks == n + 1 && x.pc.Idle? && x.isLeader ==> x.lease == lease)
  }

  lemma ReactSameTick(s: State, a: Action, x: Elector, lease: Option<Lease>, n: nat)
    requires OfElector(a) && x.ticks >= n
    requires x.ticks == n ==> x.isLeader && x.lease == lease && (x.pc.Idle? || x.pc.WaitKeepAlive? || x.pc.WaitRevoke?)
    requires x.ticks == n + 1 && x.pc.Idle? && x.isLeader ==> x.lease == lease
    ensures var y := React(s, a, x).next;
            && y.ticks >= n
            && (y.ticks == n ==> y.isLeader && y.lease == lease && (y.pc.Idle? || y.pc.WaitKeepAlive? || y.pc.WaitRevoke?))
            && (y.ticks == n + 1 && y.pc.Idle? && y.isLeader ==> y.lease == lease)
  {
  }

  lemma {:induction false} KeepsClaimForATick(s: State, e: Inst, lease: Option<Lease>, n: nat, acts: seq<Action>)
    requires SameTick(s, e, lease, n)
    ensures SameTick(Run(s, acts), e, lease, n)
    decreases |acts|
  {
    if acts != [] {
      var a := acts[0];
      if OfElector(a) && a.e in s.electors {
        PerformIs(s, a.e, React(s, a, s.electors[a.e]));
        if a.e == e { ReactSameTick(s, a, s.electors[e], lease, n); }
      }
      KeepsClaimForATick(Apply(s, a), e, lease, n, acts[1..]);
    }
  }

  // ----- staying in office -----

  /** A keepalive is refused only for a lease that is dead for good. */
  ghost predicate KeepHonest(s: State) {
    forall g :: g in s.sent && s.sent[g].KeepAlive? ==> HonestAt(s, g)
  }

  ghost predicate HonestAt(s: State, g: Tag)
    requires g in s.sent && s.sent[g].KeepAlive?
  {
    && s.sent[g].held < s.nextLease
    && (g in s.answers ==>
          s.answers[g] == KeptAlive(true) || (s.answers[g] == KeptAlive(false) && s.sent[g].held !in s.live))
  }

  /** What serving does to the leases: at most one comes to life, and it was never used before. */
  lemma ServeLeases(s: State, tag: Tag)
    requires tag in s.sent
    ensures var t := ServeStep(s, tag);
            && t.live <= s.live + {s.nextLease} && t.nextLease >= s.nextLease && t.sent == s.sent
            && t.answers == s.answers[tag := t.answers[tag]]
            && (s.sent[tag].KeepAlive? ==> t.live == s.live && t.answers[tag] == KeptAlive(s.sent[tag].held in s.live))
  {
  }

  lemma ServeHonest(s: State, tag: Tag)
    requires KeepHonest(s) && tag in s.sent && tag !in s.answers
    ensures KeepHonest(ServeStep(s, tag))
  {
    var t := ServeStep(s, tag);
    ServeLeases(s, tag);
    forall g | g in t.sent && t.sent[g].KeepAlive? ensures HonestAt(t, g) {
      assert HonestAt(s, g);
    }
  }

  /** The keepalive a leader sends is for a lease the store has granted. */
  lemma ReactionHonest(s: State, a: Action, x: Elector)
    requires OfElector(a) && StoreInv(s) && ElectorInv(s, a.e, x)
    ensures var r := React(s, a, x); r.Asks? && r.request.KeepAlive? ==> r.request.held < s.nextLease
  {
  }

  lemma PerformHonest(s: State, e: Inst, r: Reaction)
    requires WireInv(s) && KeepHonest(s) && (r.Asks? && r.request.KeepAlive? ==> r.request.held < s.nextLease)
    ensures KeepHonest(Perform(s, e, r))
  {
    var t := Perform(s, e, r);
    assert s.nextTag !in s.answers;
    forall g | g in t.sent && t.sent[g].KeepAlive? ensures HonestAt(t, g) {
      if g in s.sent && g != s.nextTag { assert HonestAt(s, g); }
    }
  }

  lemma ExpireHonest(s: State, l: Lease)
    requires KeepHonest(s)
    ensures KeepHonest(DropLease(s, l))
  {
    forall g | g in s.sent && s.sent[g].KeepAlive? ensures HonestAt(DropLease(s, l), g) { assert HonestAt(s, g); }
  }

  lemma HonestStep(s: State, a: Action)
    requires Inv(s) && KeepHonest(s)
    ensures KeepHonest(Apply(s, a))
  {
    match a
    case Serve(tag) => if tag in s.sent && tag !in s.answers { ServeHonest(s, tag); }
    case Expire(l) => ExpireHonest(s, l);
    case _ =>
      if a.e in s.electors {
        assert ElectorInv(s, a.e, s.electors[a.e]);
        ReactionHonest(s, a, s.electors[a.e]);
        PerformHonest(s, a.e, React(s, a, s.electors[a.e]));
      }
  }

  lemma {:induction false} HonestRun(s: State, acts: seq<Action>)
    requires Inv(s) && KeepHonest(s)
    ensures KeepHonest(Run(s, acts))
    decreases |acts|
  {
    if acts != [] {
      StepKeeps(s, acts[0]);
      HonestStep(s, acts[0]);
      HonestRun(Apply(s, acts[0]), acts[1..]);
    }
  }

  /** The lease is alive before and after each of the actions. */
  ghost predicate LivesThrough(s: State, acts: seq<Action>, l: Lease)
    decreases |acts|
  {
    l in s.live && (acts == [] || LivesThrough(Apply(s, acts[0]), acts[1..], l))
  }

  /** The elector leads under l and is not stepping down. */
  predicate Serves(x: Elector, l: Lease) { x.isLeader && x.lease == Some(l) && !x.pc.WaitRevoke? }

  lemma ServesOn(s: State, a: Action, x: Elector, l: Lease)
    requires OfElector(a) && !a.Stop? && !a.GiveUp? && ElectorInv(s, a.e, x) && KeepHonest(s) && Serves(x, l) && l in s.live
    ensures Serves(React(s, a, x).next, l)
  {
    if x.pc.WaitKeepAlive? { assert s.sent[x.pc.tag] == KeepAlive(l) && HonestAt(s, x.pc.tag); }
  }

  lemma OfficeStep(s: State, a: Action, e: Inst, l: Lease)
    requires Inv(s) && KeepHonest(s) && e in s.electors && Serves(s.electors[e], l) && l in s.live
    requires a != Stop(e) && a != GiveUp(e)
    ensures e in Apply(s, a).electors && Serves(Apply(s, a).electors[e], l)
  {
    assert ElectorInv(s, e, s.electors[e]);
    if OfElector(a) && a.e in s.electors {
      PerformIs(s, a.e, React(s, a, s.electors[a.e]));
      if a.e == e { ServesOn(s, a, s.electors[e], l); }
    }
  }

  lemma {:induction false} OfficeRun(s: State, acts: seq<Action>, e: Inst, l: Lease)
    requires Inv(s) && KeepHonest(s) && e in s.electors && Serves(s.electors[e], l) && LivesThrough(s, acts, l)
    requires Stop(e) !in acts && GiveUp(e) !in acts
    ensures var t := Run(s, acts); e in t.electors && Serves(t.electors[e], l) && l in t.live
    decreases |acts|
  {
    if acts != [] {
      OfficeStep(s, acts[0], e, l);
      StepKeeps(s, acts[0]);
      HonestStep(s, acts[0]);
      OfficeRun(Apply(s, acts[0]), acts[1..], e, l);
    }
  }

  /**
   A leader stays in office: as long as its lease lives, it is not stopped and no answer to it is
   lost, it leads under the same lease after any number of ticks, whatever the others do.
   */
  lemma LeaderStays(ids: set<Inst>, before: seq<Action>, after: seq<Action>, e: Inst)
    requires var s := Run(Init(ids), before);
             Leads(s, e) && !s.electors[e].pc.WaitRevoke? && LivesThrough(s, after, s.electors[e].lease.value)
    requires Stop(e) !in after && GiveUp(e) !in after
    ensures var s := Run(Init(ids), before);
            var t := Run(s, after);
            Leads(t, e) && t.electors[e].lease == s.electors[e].lease
  {
    var s := Run(Init(ids), before);
    RunKeeps(Init(ids), before);
    HonestRun(Init(ids), before);
    OfficeRun(s, after, e, s.electors[e].lease.value);
  }

  // ----- no lease is left behind -----

  /** A lease the elector has been told of is one it competes with, one it holds, or one the store has been asked to revoke. */
  ghost predicate Accounted(s: State, x: Elector, l: Lease) {
    (x.pc.WaitTxn? && x.pc.lease == l) || x.lease == Some(l) || Revoke(l) in s.sent.Values
  }

  /** A follower holds no lease; a leader that is stepping down has asked for its lease to be revoked. */
  ghost predicate TidyElector(s: State, x: Elector) {
    && (!x.isLeader ==> x.lease.None?)
    && (x.isLeader ==> x.pc.Idle? || x.pc.WaitRevoke? || x.pc.WaitKeepAlive?)
    && (x.pc.WaitRevoke? && x.lease.Some? ==> Revoke(x.lease.value) in s.sent.Values)
  }

  ghost predicate Tidy(s: State) {
    && (forall e :: e in s.electors ==> TidyElector(s, s.electors[e]))
    && forall g :: g in s.sent && s.sent[g].Txn? ==>
         s.sent[g].who in s.electors && Accounted(s, s.electors[s.sent[g].who], s.sent[g].with)
  }

  lemma SentGrows(s: State, r: Reaction)
    requires s.nextTag !in s.sent
    ensures var t := Sending(s, r);
            && (forall q :: q in s.sent.Values ==> q in t.sent.Values)
            && (r.Asks? ==> r.request in t.sent.Values)
  {
    var t := Sending(s, r);
    forall q | q in s.sent.Values ensures q in t.sent.Values {
      var g :| g in s.sent && s.sent[g] == q;
      assert g in t.sent && t.sent[g] == q;
    }
    if r.Asks? { assert s.nextTag in t.sent && t.sent[s.nextTag] == r.request; }
  }

  lemma ReactTidy(s: State, a: Action, x: Elector)
    requires OfElector(a) && s.nextTag !in s.sent && TidyElector(s, x)
    ensures TidyElector(Sending(s, React(s, a, x)), React(s, a, x).next)
  {
    SentGrows(s, React(s, a, x));
  }

  lemma ReactAccounted(s: State, a: Action, x: Elector, l: Lease)
    requires OfElector(a) && s.nextTag !in s.sent && TidyElector(s, x) && Accounted(s, x, l)
    ensures Accounted(Sending(s, React(s, a, x)), React(s, a, x).next, l)
  {
    SentGrows(s, React(s, a, x));
  }

  lemma ReactAsksOwn(s: State, a: Action, x: Elector)
    requires OfElector(a)
    ensures var r := React(s, a, x);
            r.Asks? && r.request.Txn? ==> r.request.who == a.e && r.next.pc.WaitTxn? && r.next.pc.lease == r.request.with
  {
  }

  lemma TidyReact(s: State, a: Action)
    requires WireInv(s) && Tidy(s) && OfElector(a) && a.e in s.electors
    ensures Tidy(Apply(s, a))
  {
    var e, x := a.e, s.electors[a.e];
    var r := React(s, a, x);
    var t := Apply(s, a);
    assert s.nextTag !in s.sent;
    PerformIs(s, e, r);
    SentGrows(s, r);
    ReactTidy(s, a, x);
    ReactAsksOwn(s, a, x);
    assert t.sent == Sending(s, r).sent;
    forall i | i in t.electors ensures TidyElector(t, t.electors[i]) {
      if i != e { assert TidyElector(s, s.electors[i]); }
    }
    forall g | g in t.sent && t.sent[g].Txn?
      ensures t.sent[g].who in t.electors && Accounted(t, t.electors[t.sent[g].who], t.sent[g].with)
    {
      if g in s.sent && s.sent[g].who == e { ReactAccounted(s, a, x, s.sent[g].with); }
    }
  }

  lemma {:induction false} TidyRun(s: State, acts: seq<Action>)
    requires Inv(s) && Tidy(s)
    ensures Tidy(Run(s, acts))
    decreases |acts|
  {
    if acts != [] {
      var a := acts[0];
      if OfElector(a) && a.e in s.electors { TidyReact(s, a); }
      if a.Serve? && a.tag in s.sent { ServeFrame(s, a.tag); }
      StepKeeps(s, a);
      TidyRun(Apply(s, a), acts[1..]);
    }
  }

  /**
   No lease is left behind: in every reachable state each lease an elector has competed with is
   still in the running, held by it, or the subject of a revocation it has sent.
   */
  lemma NoLeaseLeftBehind(ids: set<Inst>, acts: seq<Action>, g: Tag)
    requires var s := Run(Init(ids), acts); g in s.sent && s.sent[g].Txn?
    ensures var s := Run(Init(ids), acts);
            s.sent[g].who in s.electors && Accounted(s, s.electors[s.sent[g].who], s.sent[g].with)
  {
    TidyRun(Init(ids), acts);
  }

  // ----- what is not promised -----

  predicate Follower(x: Elector) { !x.isLeader && x.pc.Idle? }

  /** The tick of an unopposed candidate: the grant, then the won election. */
  function Granting(e: Inst, tag: Tag): seq<Action> { [Tick(e)] + ([Serve(tag)] + ([Receive(e)] + [])) }

  function Winning(e: Inst, tag: Tag): seq<Action> { [Serve(tag)] + ([Receive(e)] + []) }

  function Campaign(e: Inst, tag: Tag): seq<Action> { Granting(e, tag) + Winning(e, tag + 1) }

  lemma RunCons(s: State, a: Action, rest: seq<Action>)
    ensures Run(s, [a] + rest) == Run(Apply(s, a), rest)
  {
    assert ([a] + rest)[1..] == rest;
  }

  lemma GrantSteps(s: State, e: Inst, g: Tag)
    ensures Run(s, Granting(e, g)) == Apply(Apply(Apply(s, Tick(e)), Serve(g)), Receive(e))
  {
    var s1 := Apply(s, Tick(e));
    var s2 := Apply(s1, Serve(g));
    RunCons(s2, Receive(e), []);
    RunCons(s1, Serve(g), [Receive(e)] + []);
    RunCons(s, Tick(e), [Serve(g)] + ([Receive(e)] + []));
  }

  lemma GrantPhase(s: State, e: Inst)
    requires WireInv(s) && e in s.electors && Follower(s.electors[e])
    ensures HasLease(s, Run(s, Granting(e, s.nextTag)), e)
  {
    GrantEffect(s, e);
    GrantSteps(s, e, s.nextTag);
  }

  /** t is s after e has been granted a lease and has asked for the leader key with it. */
  ghost predicate HasLease(s: State, t: State, e: Inst) {
    && t.nextTag == s.nextTag + 2 && t.nextLease == s.nextLease + 1 && t.live == s.live + {s.nextLease}
    && t.key == s.key && s.nextTag + 1 in t.sent && t.sent[s.nextTag + 1] == Txn(e, s.nextLease)
    && s.nextTag + 1 !in t.answers
    && e in s.electors && t.electors == s.electors[e := s.electors[e].(pc := WaitTxn(s.nextTag + 1, s.nextLease))]
  }

  lemma GrantEffect(s: State, e: Inst)
    requires WireInv(s) && e in s.electors && Follower(s.electors[e])
    ensures HasLease(s, Apply(Apply(Apply(s, Tick(e)), Serve(s.nextTag)), Receive(e)), e)
  {
    var g := s.nextTag;
    assert g !in s.sent && g + 1 !in s.sent;
    var s1 := Apply(s, Tick(e));
    assert s1.electors == s.electors[e := s.electors[e].(pc := WaitGrant(g))] && s1.sent[g] == Grant;
    var s2 := Apply(s1, Serve(g));
    assert s2.answers == s.answers[g := Granted(s.nextLease)];
  }

  lemma WinPhase(s: State, e: Inst, g: Tag, l: Lease)
    requires e in s.electors && s.electors[e].pc == WaitTxn(g, l)
    requires g in s.sent && s.sent[g] == Txn(e, l) && g !in s.answers && s.key == None && l in s.live
    ensures var t := Run(s, Winning(e, g));
            && t.electors == s.electors[e := Elector(true, Some(l), Idle, s.electors[e].ticks + 1)] && t.key == Some((e, l))
            && t.live == s.live && t.nextTag == s.nextTag && t.nextLease == s.nextLease
  {
    RunCons(Apply(s, Serve(g)), Receive(e), []);
    RunCons(s, Serve(g), [Receive(e)] + []);
  }

  /** t is s after e has won the leader key with a new lease. */
  ghost predicate HasWon(s: State, t: State, e: Inst) {
    && e in s.electors && t.nextTag == s.nextTag + 2 && t.nextLease == s.nextLease + 1
    && t.electors == s.electors[e := Elector(true, Some(s.nextLease), Idle, s.electors[e].ticks + 1)]
    && t.key == Some((e, s.nextLease)) && t.live == s.live + {s.nextLease}
  }

  lemma WinsAfterGrant(s: State, m: State, e: Inst)
    requires HasLease(s, m, e) && s.key == None
    ensures HasWon(s, Run(m, Winning(e, s.nextTag + 1)), e)
  {
    WinPhase(m, e, s.nextTag + 1, s.nextLease);
  }

  /** A follower between ticks whose requests are all answered wins an election that no one else is in. */
  lemma {:induction false} CampaignWins(s: State, e: Inst)
    requires WireInv(s) && e in s.electors && Follower(s.electors[e]) && s.key == None
    ensures HasWon(s, Run(s, Campaign(e, s.nextTag)), e)
  {
    var g := s.nextTag;
    RunConcat(s, Granting(e, g), Winning(e, g + 1));
    GrantPhase(s, e);
    WinsAfterGrant(s, Run(s, Granting(e, g)), e);
  }

  /** The lease of the leader a expires and b, which has made no attempt yet, wins the next election. */
  lemma ExpiresAndLoses(s: State, a: Inst, b: Inst, l: Lease)
    requires WireInv(s) && a != b && a in s.electors && b in s.electors && l < s.nextLease
    requires s.electors[a].isLeader && s.electors[a].lease == Some(l) && Follower(s.electors[b])
    requires s.key == Some((a, l))
    ensures var t := Run(s, [Expire(l)] + Campaign(b, s.nextTag));
            a in t.electors && t.electors[a].isLeader && !Leads(t, a) && Leads(t, b)
  {
    RunCons(s, Expire(l), Campaign(b, s.nextTag));
    CampaignWins(Apply(s, Expire(l)), b);
  }

  /** Two instances may both report leadership: the lease of the first has expired and its next tick has not ended. */
  lemma TwoMayClaim(a: Inst, b: Inst) returns (acts: seq<Action>)
    requires a != b
    ensures var s := Run(Init({a, b}), acts);
            && a in s.electors && s.electors[a].isLeader && !Leads(s, a)
            && Leads(s, b)
  {
    var s0 := Init({a, b});
    var first := Campaign(a, s0.nextTag);
    CampaignWins(s0, a);
    RunKeeps(s0, first);
    var s1 := Run(s0, first);
    ExpiresAndLoses(s1, a, b, 0);
    RunConcat(s0, first, [Expire(0)] + Campaign(b, s1.nextTag));
    acts := first + ([Expire(0)] + Campaign(b, s1.nextTag));
  }

  lemma {:induction false} RunConcat(s: State, a: seq<Action>, b: seq<Action>)
    ensures Run(s, a + b) == Run(Run(s, a), b)
    decreases |a|
  {
    if a == [] {
      assert a + b == b;
    } else {
      assert (a + b)[0] == a[0] && (a + b)[1..] == a[1..] + b;
      RunConcat(Apply(s, a[0]), a[1..], b);
    }
  }
}
