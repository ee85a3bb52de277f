/**
 The response and timeout handlers of the client's request table, interleaved at the grain of
 their locked sections. Any number of handlers may run for a request, on any threads; a thread
 finishes a handler before it goes on to the next. Promises throw on a second set_value. Requests
 are of the ASYNC kind and their ids are unique.
 */
module Requestor {
  import opened Options

  type Id = string

  datatype Value = Reply(rid: Id, payload: nat) | TimeoutReply(rid: Id)

  datatype Desc = Desc(triggered: bool, promise: Option<Value>)

  datatype Pc =
    | Lookup            // getDesc
    | Check             // under the lock: test (and, for a timeout, set) timeout_triggered
    | Fulfil            // set_value, outside the lock
    | Erase             // delDesc
    | Done(found: bool) // returned; found = the descriptor had been there
    | Threw             // onResponse left by the exception of an unguarded second set_value

  /** on is the thread the handler runs on. */
  datatype Handler = OnResponse(on: nat, value: Value, pc: Pc) | OnTimeout(on: nat, id: Id, pc: Pc)

  function IdOf(h: Handler): Id { if h.OnResponse? then h.value.rid else h.id }

  predicate Finished(h: Handler) { h.pc.Done? || h.pc.Threw? }

  /** Begun and not finished. */
  predicate Busy(h: Handler) { h.pc.Check? || h.pc.Fulfil? || h.pc.Erase? }

  /** descs keeps every descriptor ever created, as the handlers' shared pointers do; table is the lookup map. */
  datatype State = State(descs: map<Id, Desc>, table: set<Id>, handlers: map<nat, Handler>)

  datatype Action =
    | New(id: Id)                         // newDesc
    | SendFailed(failed: Id)              // the send did not reach the transport: delDesc
    | Response(h: nat, on: nat, value: Value) // a reply is handed to a thread, as handler h
    | Timeout(h: nat, on: nat, late: Id)      // likewise for a timer, or a synchronous wait that ran out
    | Step(t: nat)

  const EMPTY := State(map[], {}, map[])

  function Moved(h: Handler, pc: Pc): Handler { h.(pc := pc) }

  function At(s: State, t: nat, pc: Pc): State
    requires t in s.handlers
  {
    s.(handlers := s.handlers[t := Moved(s.handlers[t], pc)])
  }

  function CheckStep(s: State, t: nat): State
    requires t in s.handlers && IdOf(s.handlers[t]) in s.descs
  {
    var h := s.handlers[t];
    var id := IdOf(h);
    var d := s.descs[id];
    if h.OnResponse? then
      if d.triggered then At(s.(table := s.table - {id}), t, Done(true)) else At(s, t, Fulfil)
    else
      if d.triggered then At(s, t, Done(true))
      else At(s.(descs := s.descs[id := d.(triggered := true)]), t, Fulfil)
  }

  /** What a handler gives set_value. */
  function Offered(h: Handler): Value { if h.OnResponse? then h.value else TimeoutReply(h.id) }

  function FulfilStep(s: State, t: nat): State
    requires t in s.handlers && IdOf(s.handlers[t]) in s.descs
  {
    var h := s.handlers[t];
    var id := IdOf(h);
    var d := s.descs[id];
    var v := Offered(h);
    if d.promise.None? then At(s.(descs := s.descs[id := d.(promise := Some(v))]), t, Erase)
    else if h.OnResponse? then At(s, t, Threw)
    else At(s, t, Erase)
  }

  function HandlerStep(s: State, t: nat): State
    requires t in s.handlers
  {
    var id := IdOf(s.handlers[t]);
    match s.handlers[t].pc
    case Lookup => At(s, t, if id in s.table then Check else Done(false))
    case Check => if id in s.descs then CheckStep(s, t) else s
    case Fulfil => if id in s.descs then FulfilStep(s, t) else s
    case Erase => At(s.(table := s.table - {id}), t, Done(true))
    case Done(_) => s
    case Threw => s
  }

  function Apply(s: State, a: Action): State {
    match a
    case New(id) =>
      if id in s.descs then s else s.(descs := s.descs[id := Desc(false, None)], table := s.table + {id})
    case SendFailed(id) => s.(table := s.table - {id})
    case Response(t, on, v) => if t in s.handlers then s else s.(handlers := s.handlers[t := OnResponse(on, v, Lookup)])
    case Timeout(t, on, id) => if t in s.handlers then s else s.(handlers := s.handlers[t := OnTimeout(on, id, Lookup)])
    case Step(t) => if t in s.handlers && MayStep(s, t) then HandlerStep(s, t) else s
  }

  /** No other handler is under way on the same thread. */
  predicate MayStep(s: State, t: nat)
    requires t in s.handlers
  {
    forall u :: u in s.handlers && u != t && s.handlers[u].on == s.handlers[t].on ==> !Busy(s.handlers[u])
  }

  function Run(s: State, acts: seq<Action>): State
    decreases |acts|
  {
    if acts == [] then s else Run(Apply(s, acts[0]), acts[1..])
  }

  // ----- invariant -----

  /** Some handler for id stands at this point. */
  ghost predicate SomeAt(s: State, id: Id, pc: Pc) {
    exists t :: t in s.handlers && IdOf(s.handlers[t]) == id && s.handlers[t].pc == pc
  }

  predicate TimingOut(h: Handler, id: Id) { h.OnTimeout? && h.id == id && h.pc == Fulfil }

  /** A timeout handler for id is about to fulfil the promise. */
  ghost predicate TimeoutPending(s: State, id: Id) { exists t :: t in s.handlers && TimingOut(s.handlers[t], id) }

  /** The value is what some handler of id gives set_value. */
  ghost predicate OfferedFor(s: State, id: Id, v: Value) {
    exists t :: t in s.handlers && IdOf(s.handlers[t]) == id && Offered(s.handlers[t]) == v
  }

  ghost predicate DescInv(s: State, id: Id)
    requires id in s.descs
  {
    var d := s.descs[id];
    && (d.promise.Some? ==> OfferedFor(s, id, d.promise.value))
    && (d.promise.Some? && id in s.table ==> SomeAt(s, id, Erase))
    && (d.triggered && d.promise.None? ==> TimeoutPending(s, id))
  }

  ghost predicate HandlerInv(s: State, h: Handler) {
    var id := IdOf(h);
    match h.pc
    case Lookup => true
    case Check => id in s.descs
    case Fulfil => id in s.descs
    case Erase => id in s.descs && s.descs[id].promise.Some?
    case Done(found) => found ==> id in s.descs && (s.descs[id].triggered || s.descs[id].promise.Some?)
    case Threw => id in s.descs && s.descs[id].promise.Some?
  }

  ghost predicate Inv(s: State) {
    && s.table <= s.descs.Keys
    && (forall id :: id in s.descs ==> DescInv(s, id))
    && forall t :: t in s.handlers ==> HandlerInv(s, s.handlers[t])
  }

  /** A step of handler t leaves the other handlers, and the descriptors of other requests, as they were. */
  ghost predicate Local(s: State, s': State, t: nat)
    requires t in s.handlers
  {
    var id := IdOf(s.handlers[t]);
    && s'.handlers.Keys == s.handlers.Keys && s'.descs.Keys == s.descs.Keys
    && (forall u :: u in s.handlers && u != t ==> s'.handlers[u] == s.handlers[u])
    && s'.handlers[t] == Moved(s.handlers[t], s'.handlers[t].pc)
    && (forall j :: j in s.descs && j != id ==> s'.descs[j] == s.descs[j])
    && (id in s.descs ==> (s.descs[id].triggered ==> s'.descs[id].triggered)
                          && (s.descs[id].promise.Some? ==> s'.descs[id].promise == s.descs[id].promise))
    && s'.table <= s.table
  }

  lemma CheckIsLocal(s: State, t: nat)
    requires t in s.handlers && IdOf(s.handlers[t]) in s.descs
    ensures Local(s, CheckStep(s, t), t)
  {
  }

  lemma FulfilIsLocal(s: State, t: nat)
    requires t in s.handlers && IdOf(s.handlers[t]) in s.descs
    ensures Local(s, FulfilStep(s, t), t)
  {
  }

  lemma StepIsLocal(s: State, t: nat)
    requires t in s.handlers
    ensures Local(s, HandlerStep(s, t), t)
  {
    if IdOf(s.handlers[t]) in s.descs {
      if s.handlers[t].pc == Check { CheckIsLocal(s, t); }
      if s.handlers[t].pc == Fulfil { FulfilIsLocal(s, t); }
    }
  }

  /** What every other handler knows survives a local step. */
  lemma OthersKeep(s: State, s': State, t: nat)
    requires Inv(s) && t in s.handlers && Local(s, s', t) && HandlerInv(s', s'.handlers[t])
    ensures forall u :: u in s'.handlers ==> HandlerInv(s', s'.handlers[u])
  {
    forall u | u in s'.handlers ensures HandlerInv(s', s'.handlers[u]) {
      if u != t { assert HandlerInv(s, s.handlers[u]); }
    }
  }

  /** Handlers are never forgotten, so a value once offered stays offered. */
  lemma OfferedKeeps(s: State, s': State, id: Id, v: Value)
    requires OfferedFor(s, id, v)
    requires forall u :: u in s.handlers ==>
               u in s'.handlers && IdOf(s'.handlers[u]) == IdOf(s.handlers[u]) && Offered(s'.handlers[u]) == Offered(s.handlers[u])
    ensures OfferedFor(s', id, v)
  {
    var u :| u in s.handlers && IdOf(s.handlers[u]) == id && Offered(s.handlers[u]) == v;
    assert IdOf(s'.handlers[u]) == id && Offered(s'.handlers[u]) == v;
  }

  /** A descriptor keeps its invariant when it, its table entry and the handlers that matter to it stay. */
  lemma DescStays(s: State, s': State, j: Id)
    requires j in s.descs && DescInv(s, j) && j in s'.descs && s'.descs[j] == s.descs[j] && (j in s'.table ==> j in s.table)
    requires forall u :: u in s.handlers ==>
               u in s'.handlers && IdOf(s'.handlers[u]) == IdOf(s.handlers[u]) && Offered(s'.handlers[u]) == Offered(s.handlers[u])
    requires forall u :: u in s.handlers && IdOf(s.handlers[u]) == j ==> s'.handlers[u] == s.handlers[u]
    ensures DescInv(s', j)
  {
    var d := s.descs[j];
    if d.promise.Some? {
      OfferedKeeps(s, s', j, d.promise.value);
      if j in s'.table {
        var u :| u in s.handlers && IdOf(s.handlers[u]) == j && s.handlers[u].pc == Erase;
        assert s'.handlers[u] == s.handlers[u];
      }
    } else if d.triggered {
      var u :| u in s.handlers && TimingOut(s.handlers[u], j);
      assert IdOf(s.handlers[u]) == j && s'.handlers[u] == s.handlers[u];
    }
  }

  lemma OtherDescsKeep(s: State, s': State, t: nat, j: Id)
    requires Inv(s) && t in s.handlers && Local(s, s', t) && j in s.descs && j != IdOf(s.handlers[t])
    ensures DescInv(s', j)
  {
    assert DescInv(s, j);
    DescStays(s, s', j);
  }

  lemma StepKeeps(s: State, t: nat)
    requires Inv(s) && t in s.handlers
    ensures Inv(HandlerStep(s, t))
  {
    var s', h := HandlerStep(s, t), s.handlers[t];
    var id := IdOf(h);
    StepIsLocal(s, t);
    assert HandlerInv(s, h);
    OwnHandlerKeeps(s, t);
    OthersKeep(s, s', t);
    forall j | j in s'.descs ensures DescInv(s', j) {
      if j == id { OwnDescKeeps(s, t); } else { OtherDescsKeep(s, s', t, j); }
    }
  }

  lemma OwnHandlerKeeps(s: State, t: nat)
    requires Inv(s) && t in s.handlers
    ensures HandlerInv(HandlerStep(s, t), HandlerStep(s, t).handlers[t])
  {
    assert HandlerInv(s, s.handlers[t]);
  }

  lemma OwnDescKeeps(s: State, t: nat)
    requires Inv(s) && t in s.handlers && IdOf(s.handlers[t]) in s.descs
    ensures DescInv(HandlerStep(s, t), IdOf(s.handlers[t]))
  {
    var s', h := HandlerStep(s, t), s.handlers[t];
    var id := IdOf(h);
    var d, d' := s.descs[id], s'.descs[id];
    assert DescInv(s, id);
    StepIsLocal(s, t);
    if d.promise.Some? {
      OfferedKeeps(s, s', id, d.promise.value);
      if id in s'.table {
        var u :| u in s.handlers && IdOf(s.handlers[u]) == id && s.handlers[u].pc == Erase;
        assert u != t && s'.handlers[u] == s.handlers[u];
      }
    } else if d'.promise.Some? {
      assert IdOf(s'.handlers[t]) == id && s'.handlers[t].pc == Erase && Offered(s'.handlers[t]) == d'.promise.value;
    } else if d.triggered {
      var u :| u in s.handlers && TimingOut(s.handlers[u], id);
      assert u != t && s'.handlers[u] == s.handlers[u];
    } else if d'.triggered {
      assert TimingOut(s'.handlers[t], id);
    }
  }

  /** Actions that start or create something, or take an entry out of the table. */
  lemma OutsideKeeps(s: State, a: Action)
    requires Inv(s) && !a.Step?
    ensures Inv(Apply(s, a))
  {
    var s' := Apply(s, a);
    forall j | j in s'.descs ensures DescInv(s', j) {
      if j in s.descs {
        assert DescInv(s, j);
        DescStays(s, s', j);
      }
    }
    forall t | t in s'.handlers ensures HandlerInv(s', s'.handlers[t]) {
      if t in s.handlers { assert HandlerInv(s, s.handlers[t]); }
    }
  }

  lemma {:induction false} RunKeeps(s: State, acts: seq<Action>)
    requires Inv(s)
    ensures Inv(Run(s, acts))
    decreases |acts|
  {
    if acts != [] {
      if acts[0].Step? {
        if acts[0].t in s.handlers && MayStep(s, acts[0].t) { StepKeeps(s, acts[0].t); }
      } else {
        OutsideKeeps(s, acts[0]);
      }
      RunKeeps(Apply(s, acts[0]), acts[1..]);
    }
  }

  // ----- main results -----

  /** Every handler started for id has finished, and one of them found the descriptor. */
  ghost predicate Settled(s: State, id: Id) {
    && (forall t :: t in s.handlers && IdOf(s.handlers[t]) == id ==> Finished(s.handlers[t]))
    && exists t :: t in s.handlers && IdOf(s.handlers[t]) == id && s.handlers[t].pc != Done(false)
  }

  /** In every interleaving, once the handlers are done the promise holds a value that one of them offered, with the request's id, and the table entry is gone. */
  lemma SettledExactly(acts: seq<Action>, id: Id)
    requires Settled(Run(EMPTY, acts), id)
    ensures var s := Run(EMPTY, acts);
            && id in s.descs && s.descs[id].promise.Some? && OfferedFor(s, id, s.descs[id].promise.value)
            && s.descs[id].promise.value.rid == id && id !in s.table
            && (|| HasReply(acts, s.descs[id].promise.value)
                || (HasTimeout(acts, id) && s.descs[id].promise.value == TimeoutReply(id)))
  {
    var s := Run(EMPTY, acts);
    RunKeeps(EMPTY, acts);
    var t :| t in s.handlers && IdOf(s.handlers[t]) == id && s.handlers[t].pc != Done(false);
    assert Finished(s.handlers[t]) && HandlerInv(s, s.handlers[t]);
    assert DescInv(s, id);
    forall u | u in s.handlers ensures !TimingOut(s.handlers[u], id) {
      assert IdOf(s.handlers[u]) == id ==> Finished(s.handlers[u]);
    }
    assert !TimeoutPending(s, id) && !SomeAt(s, id, Erase);
    ValueComesFromRun(acts, id);
  }

  /** Some action of the list started this handler. */
  ghost predicate StartedBy(h: Handler, acts: seq<Action>) {
    exists i :: 0 <= i < |acts| &&
      if h.OnResponse? then acts[i].Response? && acts[i].value == h.value else acts[i].Timeout? && acts[i].late == h.id
  }

  lemma StartedByMore(h: Handler, a: Action, rest: seq<Action>)
    requires StartedBy(h, rest)
    ensures StartedBy(h, [a] + rest)
  {
    var i :| 0 <= i < |rest| &&
      if h.OnResponse? then rest[i].Response? && rest[i].value == h.value else rest[i].Timeout? && rest[i].late == h.id;
    assert ([a] + rest)[i + 1] == rest[i];
  }

  lemma ApplyStarts(s: State, a: Action, t: nat)
    requires t in Apply(s, a).handlers
    ensures StartedBy(Apply(s, a).handlers[t], [a]) || (t in s.handlers && SameTask(s.handlers[t], Apply(s, a).handlers[t]))
  {
    if t in s.handlers {
      if a.Step? && a.t in s.handlers && MayStep(s, a.t) { StepIsLocal(s, a.t); }
    } else {
      assert [a][0] == a;
    }
  }

  predicate SameTask(g: Handler, h: Handler) {
    if g.OnResponse? then h.OnResponse? && h.value == g.value else h.OnTimeout? && h.id == g.id
  }

  /** Every handler of a run was there at its start or was started by an action of it. */
  lemma {:induction false} HandlersAreStarted(s: State, acts: seq<Action>, t: nat)
    requires t in Run(s, acts).handlers
    ensures var h := Run(s, acts).handlers[t];
            StartedBy(h, acts) || (t in s.handlers && SameTask(s.handlers[t], h))
    decreases |acts|
  {
    if acts != [] {
      var s1, h := Apply(s, acts[0]), Run(s, acts).handlers[t];
      HandlersAreStarted(s1, acts[1..], t);
      assert acts == [acts[0]] + acts[1..];
      if StartedBy(h, acts[1..]) {
        StartedByMore(h, acts[0], acts[1..]);
      } else {
        ApplyStarts(s, acts[0], t);
        if StartedBy(s1.handlers[t], [acts[0]]) {
          assert if h.OnResponse? then acts[0].Response? && acts[0].value == h.value else acts[0].Timeout? && acts[0].late == h.id;
        }
      }
    }
  }

  predicate HasReply(acts: seq<Action>, v: Value) { exists i :: 0 <= i < |acts| && acts[i].Response? && acts[i].value == v }

  predicate HasTimeout(acts: seq<Action>, id: Id) { exists i :: 0 <= i < |acts| && acts[i].Timeout? && acts[i].late == id }

  /**
   What a promise can hold, by the actions of the run: a reply to that request that arrived, or the
   timeout reply if a timeout fired for it. Without a timeout it is one of the replies, without a
   reply it is the timeout.
   */
  lemma ValueComesFromRun(acts: seq<Action>, id: Id)
    requires id in Run(EMPTY, acts).descs && Run(EMPTY, acts).descs[id].promise.Some?
    ensures var v := Run(EMPTY, acts).descs[id].promise.value;
            || (HasReply(acts, v) && v.rid == id)
            || (HasTimeout(acts, id) && v == TimeoutReply(id))
  {
    var s := Run(EMPTY, acts);
    RunKeeps(EMPTY, acts);
    assert DescInv(s, id);
    var v := s.descs[id].promise.value;
    var t :| t in s.handlers && IdOf(s.handlers[t]) == id && Offered(s.handlers[t]) == v;
    HandlersAreStarted(EMPTY, acts, t);
  }

  /** Every timeout handler past its check has marked its request. */
  ghost predicate Marked(s: State) {
    forall t :: t in s.handlers && s.handlers[t].OnTimeout? && s.handlers[t].pc in {Fulfil, Erase, Done(true)} ==>
      s.handlers[t].id in s.descs && s.descs[s.handlers[t].id].triggered
  }

  lemma {:induction false} TimeoutMarks(s: State, acts: seq<Action>)
    requires Marked(s)
    ensures Marked(Run(s, acts))
    decreases |acts|
  {
    if acts != [] {
      if acts[0].Step? && acts[0].t in s.handlers && MayStep(s, acts[0].t) { StepIsLocal(s, acts[0].t); }
      TimeoutMarks(Apply(s, acts[0]), acts[1..]);
    }
  }

  /** A handler that has not passed its check when a timeout has fired ends without touching the promise. */
  ghost predicate Idles(s: State, id: Id, t: nat) {
    && id in s.descs && s.descs[id].triggered
    && t in s.handlers && IdOf(s.handlers[t]) == id
    && (s.handlers[t].pc == Lookup || s.handlers[t].pc == Check || s.handlers[t].pc.Done?)
  }

  lemma {:induction false} LateHandlerIgnored(s: State, acts: seq<Action>, id: Id, t: nat)
    requires Idles(s, id, t)
    ensures Idles(Run(s, acts), id, t)
    decreases |acts|
  {
    if acts != [] {
      if acts[0].Step? && acts[0].t in s.handlers && MayStep(s, acts[0].t) { StepIsLocal(s, acts[0].t); }
      LateHandlerIgnored(Apply(s, acts[0]), acts[1..], id, t);
    }
  }

  /** Once a request is out of the table it stays out, and handlers that look it up then find nothing. */
  lemma {:induction false} GoneForGood(s: State, acts: seq<Action>, id: Id)
    requires id in s.descs && id !in s.table
    ensures id in Run(s, acts).descs && id !in Run(s, acts).table
    decreases |acts|
  {
    if acts != [] {
      if acts[0].Step? && acts[0].t in s.handlers && MayStep(s, acts[0].t) { StepIsLocal(s, acts[0].t); }
      GoneForGood(Apply(s, acts[0]), acts[1..], id);
    }
  }

  /** A request whose send failed, before any handler came for it, is never answered: its promise stays empty. */
  lemma {:induction false} FailedSendUnanswered(s: State, acts: seq<Action>, id: Id)
    requires id in s.descs && id !in s.table && s.descs[id].promise.None?
    requires forall t :: t in s.handlers && IdOf(s.handlers[t]) == id ==> s.handlers[t].pc == Lookup || s.handlers[t].pc.Done?
    ensures id in Run(s, acts).descs && Run(s, acts).descs[id].promise.None?
    decreases |acts|
  {
    if acts != [] {
      if acts[0].Step? && acts[0].t in s.handlers && MayStep(s, acts[0].t) { StepIsLocal(s, acts[0].t); }
      FailedSendUnanswered(Apply(s, acts[0]), acts[1..], id);
    }
  }

  /** Taking the entry out is what a failed send does. */
  lemma FailedSendIsGone(s: State, id: Id)
    requires Inv(s)
    ensures id !in Apply(s, SendFailed(id)).table && Apply(s, SendFailed(id)).descs == s.descs
  {
  }

  /** A promise takes one value: whatever happens later, it keeps the first. */
  lemma {:induction false} PromiseIsWriteOnce(s: State, acts: seq<Action>, id: Id)
    requires id in s.descs && s.descs[id].promise.Some?
    ensures var t := Run(s, acts);
            id in t.descs && t.descs[id].promise == s.descs[id].promise
    decreases |acts|
  {
    if acts != [] {
      if acts[0].Step? && acts[0].t in s.handlers { StepIsLocal(s, acts[0].t); }
      PromiseIsWriteOnce(Apply(s, acts[0]), acts[1..], id);
    }
  }

  // ----- the exception that leaves onResponse -----

  /** The action starts a handler for id. */
  predicate Starts(a: Action, id: Id) { (a.Response? && a.value.rid == id) || (a.Timeout? && a.late == id) }

  /** The handler starts of a run for id, in order. */
  function Started(acts: seq<Action>, id: Id): seq<Action> {
    if acts == [] then []
    else if Starts(acts[0], id) then [acts[0]] + Started(acts[1..], id)
    else Started(acts[1..], id)
  }

  /** Some handler of id was left by the exception of set_value. */
  ghost predicate SomeThrew(s: State, id: Id) { SomeAt(s, id, Threw) }

  /** Every handler of id is a timeout handler that has not thrown. */
  ghost predicate OnlyTimeouts(s: State, id: Id) {
    forall t :: t in s.handlers && IdOf(s.handlers[t]) == id ==> s.handlers[t].OnTimeout? && s.handlers[t].pc != Threw
  }

  lemma OnlyTimeoutsStep(s: State, a: Action, id: Id)
    requires OnlyTimeouts(s, id) && (Starts(a, id) ==> a.Timeout?)
    ensures OnlyTimeouts(Apply(s, a), id)
  {
    if a.Step? && a.t in s.handlers && MayStep(s, a.t) { StepIsLocal(s, a.t); }
  }

  lemma {:induction false} TimeoutsNeverThrow(s: State, acts: seq<Action>, id: Id)
    requires OnlyTimeouts(s, id)
    requires forall a :: a in Started(acts, id) ==> a.Timeout?
    ensures OnlyTimeouts(Run(s, acts), id)
    decreases |acts|
  {
    if acts != [] {
      if Starts(acts[0], id) { assert acts[0] in Started(acts, id); }
      OnlyTimeoutsStep(s, acts[0], id);
      TimeoutsNeverThrow(Apply(s, acts[0]), acts[1..], id);
    }
  }

  /** A thread has at most one handler under way. */
  ghost predicate OneBusy(s: State) {
    forall t, u :: t in s.handlers && u in s.handlers && t != u && s.handlers[t].on == s.handlers[u].on ==>
      !Busy(s.handlers[t]) || !Busy(s.handlers[u])
  }

  /** All handlers of id share a thread, and none has passed its lookup once the promise was fulfilled. */
  ghost predicate InTurn(s: State, id: Id, thread: nat) {
    forall t :: t in s.handlers && IdOf(s.handlers[t]) == id ==>
      && s.handlers[t].on == thread && s.handlers[t].pc != Threw
      && (s.handlers[t].pc in {Check, Fulfil} && id in s.descs ==> s.descs[id].promise.None?)
  }

  lemma OneBusyStep(s: State, a: Action)
    requires OneBusy(s)
    ensures OneBusy(Apply(s, a))
  {
    if a.Step? && a.t in s.handlers && MayStep(s, a.t) { StepIsLocal(s, a.t); }
  }

  /** A handler of id whose thread is free finds the promise still open, if it finds the descriptor at all. */
  lemma LookupFindsOpen(s: State, t: nat)
    requires Inv(s) && t in s.handlers && MayStep(s, t) && s.handlers[t].pc == Lookup
    requires InTurn(s, IdOf(s.handlers[t]), s.handlers[t].on) && IdOf(s.handlers[t]) in s.table
    ensures s.descs[IdOf(s.handlers[t])].promise.None?
  {
    var id := IdOf(s.handlers[t]);
    assert DescInv(s, id);
    forall u | u in s.handlers && IdOf(s.handlers[u]) == id ensures s.handlers[u].pc != Erase {
      assert u != t ==> !Busy(s.handlers[u]);
    }
    assert !SomeAt(s, id, Erase);
  }

  /** What InTurn says of one handler. */
  ghost predicate TakesTurn(s: State, h: Handler, thread: nat) {
    && h.on == thread && h.pc != Threw
    && (h.pc in {Check, Fulfil} && IdOf(h) in s.descs ==> s.descs[IdOf(h)].promise.None?)
  }

  lemma OwnTurn(s: State, t: nat, thread: nat)
    requires Inv(s) && t in s.handlers && MayStep(s, t) && InTurn(s, IdOf(s.handlers[t]), thread)
    ensures TakesTurn(HandlerStep(s, t), HandlerStep(s, t).handlers[t], thread)
  {
    var h := s.handlers[t];
    StepIsLocal(s, t);
    if h.pc == Lookup && IdOf(h) in s.table { LookupFindsOpen(s, t); }
  }

  lemma OthersTurn(s: State, t: nat, id: Id, thread: nat, u: nat)
    requires OneBusy(s) && InTurn(s, id, thread) && t in s.handlers && u in s.handlers && u != t && IdOf(s.handlers[u]) == id
    requires MayStep(s, t)
    ensures TakesTurn(HandlerStep(s, t), s.handlers[u], thread)
  {
    StepIsLocal(s, t);
    if IdOf(s.handlers[t]) == id { assert s.handlers[t].on == s.handlers[u].on; }
  }

  lemma InTurnStep(s: State, t: nat, id: Id, thread: nat)
    requires Inv(s) && OneBusy(s) && InTurn(s, id, thread) && t in s.handlers && MayStep(s, t)
    ensures InTurn(HandlerStep(s, t), id, thread)
  {
    var s' := HandlerStep(s, t);
    StepIsLocal(s, t);
    forall u | u in s'.handlers && IdOf(s'.handlers[u]) == id ensures TakesTurn(s', s'.handlers[u], thread) {
      if u == t { OwnTurn(s, t, thread); } else { OthersTurn(s, t, id, thread, u); }
    }
  }

  lemma InTurnKeeps(s: State, a: Action, id: Id, thread: nat)
    requires Inv(s) && OneBusy(s) && InTurn(s, id, thread)
    requires Starts(a, id) ==> a.on == thread
    ensures Inv(Apply(s, a)) && InTurn(Apply(s, a), id, thread)
  {
    if a.Step? {
      if a.t in s.handlers && MayStep(s, a.t) { StepKeeps(s, a.t); InTurnStep(s, a.t, id, thread); }
    } else {
      OutsideKeeps(s, a);
    }
  }

  lemma {:induction false} OneThreadNeverThrows(s: State, acts: seq<Action>, id: Id, thread: nat)
    requires Inv(s) && OneBusy(s) && InTurn(s, id, thread)
    requires forall a :: a in Started(acts, id) ==> (a.Response? || a.Timeout?) && a.on == thread
    ensures !SomeThrew(Run(s, acts), id)
    decreases |acts|
  {
    if acts != [] {
      if Starts(acts[0], id) { assert acts[0] in Started(acts, id); }
      OneBusyStep(s, acts[0]);
      InTurnKeeps(s, acts[0], id, thread);
      OneThreadNeverThrows(Apply(s, acts[0]), acts[1..], id, thread);
    }
  }

  /** The race: both handlers pass their checks before the other one fulfils the promise. */
  function Race(r: nat, o: nat): seq<Action> {
    [Step(r)] + ([Step(o)] + ([Step(r)] + ([Step(o)] + ([Step(o)] + ([Step(r)] + [])))))
  }

  lemma {:induction false} RunConcat(s: State, a: seq<Action>, b: seq<Action>)
    ensures Run(s, a + b) == Run(Run(s, a), b)
    decreases |a|
  {
    if a == [] {
      assert a + b == b;
    } else {
      assert (a + b)[0] == a[0] && (a + b)[1..] == a[1..] + b;
      RunConcat(Apply(s, a[0]), a[1..], b);
    }
  }

  lemma RunCons(s: State, a: Action, rest: seq<Action>)
    ensures Run(s, [a] + rest) == Run(Apply(s, a), rest)
  {
    assert ([a] + rest)[1..] == rest;
  }

  /** A response handler and another handler of a fresh request, just started on two idle threads. */
  ghost predicate Racing(s: State, id: Id, r: nat, o: nat) {
    && id in s.table && id in s.descs && s.descs[id] == Desc(false, None)
    && r in s.handlers && IdOf(s.handlers[r]) == id && s.handlers[r].pc == Lookup && s.handlers[r].OnResponse?
    && o in s.handlers && s.handlers[o].pc == Lookup && IdOf(s.handlers[o]) == id && s.handlers[o].on != s.handlers[r].on
    && forall u :: u in s.handlers ==> !Busy(s.handlers[u])
  }

  /** Both stand at the same point, on threads of their own, with the promise open. */
  ghost predicate Abreast(s: State, id: Id, r: nat, o: nat, response: Handler, other: Handler) {
    && id in s.descs && s.descs[id].promise.None? && r != o
    && r in s.handlers && s.handlers[r] == response && response.OnResponse? && IdOf(response) == id
    && o in s.handlers && s.handlers[o] == other && IdOf(other) == id && response.on != other.on
    && forall u :: u in s.handlers && u != r && u != o ==> !Busy(s.handlers[u])
  }

  lemma BothLook(s: State, id: Id, r: nat, o: nat)
    requires Racing(s, id, r, o)
    ensures var t, x, y := Apply(Apply(s, Step(r)), Step(o)), s.handlers[r], s.handlers[o];
            Abreast(t, id, r, o, Moved(x, Check), Moved(y, Check)) && !t.descs[id].triggered
  {
  }

  /** The response checks first, so even a timeout finds it past the check. */
  lemma BothCheck(s: State, id: Id, r: nat, o: nat, x: Handler, y: Handler)
    requires Abreast(s, id, r, o, x, y) && x.pc == y.pc == Check && !s.descs[id].triggered
    ensures Abreast(Apply(Apply(s, Step(r)), Step(o)), id, r, o, Moved(x, Fulfil), Moved(y, Fulfil))
  {
  }

  lemma SecondThrows(s: State, id: Id, r: nat, o: nat, x: Handler, y: Handler)
    requires Abreast(s, id, r, o, x, y) && x.pc == y.pc == Fulfil
    ensures var t := Apply(Apply(s, Step(o)), Step(r));
            SomeThrew(t, id) && id in t.descs && t.descs[id].promise == Some(Offered(y))
  {
    var t := Apply(Apply(s, Step(o)), Step(r));
    assert t.handlers[r].pc == Threw && IdOf(t.handlers[r]) == id;
  }

  lemma RaceThrows(s: State, id: Id, r: nat, o: nat)
    requires Racing(s, id, r, o)
    ensures var t := Run(s, Race(r, o));
            SomeThrew(t, id) && id in t.descs && t.descs[id].promise == Some(Offered(s.handlers[o]))
  {
    var x, y := s.handlers[r], s.handlers[o];
    var s1 := Apply(s, Step(r));
    var s2 := Apply(s1, Step(o));
    BothLook(s, id, r, o);
    var s3 := Apply(s2, Step(r));
    var s4 := Apply(s3, Step(o));
    BothCheck(s2, id, r, o, Moved(x, Check), Moved(y, Check));
    var s5 := Apply(s4, Step(o));
    var s6 := Apply(s5, Step(r));
    SecondThrows(s4, id, r, o, Moved(x, Fulfil), Moved(y, Fulfil));
    RaceSteps(s, s1, s2, s3, s4, s5, s6, r, o);
  }

  lemma RaceSteps(s: State, s1: State, s2: State, s3: State, s4: State, s5: State, s6: State, r: nat, o: nat)
    requires s1 == Apply(s, Step(r)) && s2 == Apply(s1, Step(o)) && s3 == Apply(s2, Step(r))
    requires s4 == Apply(s3, Step(o)) && s5 == Apply(s4, Step(o)) && s6 == Apply(s5, Step(r))
    ensures Run(s, Race(r, o)) == s6
  {
    RunCons(s5, Step(r), []);
    RunCons(s4, Step(o), [Step(r)] + []);
    RunCons(s3, Step(o), [Step(o)] + ([Step(r)] + []));
    RunCons(s2, Step(r), [Step(o)] + ([Step(o)] + ([Step(r)] + [])));
    RunCons(s1, Step(o), [Step(r)] + ([Step(o)] + ([Step(o)] + ([Step(r)] + []))));
    RunCons(s, Step(r), [Step(o)] + ([Step(r)] + ([Step(o)] + ([Step(o)] + ([Step(r)] + [])))));
  }

  // Starting handlers one after the other.

  /** Starts of handlers of id, each under a name of its own. */
  ghost predicate StartsFor(starts: seq<Action>, id: Id) {
    && (forall i :: 0 <= i < |starts| ==> Starts(starts[i], id))
    && forall i, j :: 0 <= i < j < |starts| ==> starts[i].h != starts[j].h
  }

  function Handling(a: Action): Handler
    requires a.Response? || a.Timeout?
  {
    if a.Response? then OnResponse(a.on, a.value, Lookup) else OnTimeout(a.on, a.late, Lookup)
  }

  lemma {:induction false} StartRun(s: State, starts: seq<Action>, id: Id)
    requires StartsFor(starts, id) && forall i :: 0 <= i < |starts| ==> starts[i].h !in s.handlers
    ensures var t := Run(s, starts);
            && t.descs == s.descs && t.table == s.table
            && (forall u :: u in s.handlers ==> u in t.handlers && t.handlers[u] == s.handlers[u])
            && (forall u :: u in t.handlers && u !in s.handlers ==> t.handlers[u].pc == Lookup)
            && forall i :: 0 <= i < |starts| ==>
                 starts[i].h in t.handlers && t.handlers[starts[i].h] == Handling(starts[i])
    decreases |starts|
  {
    if starts != [] {
      var s1 := Apply(s, starts[0]);
      assert s1.handlers == s.handlers[starts[0].h := Handling(starts[0])];
      assert forall i :: 0 <= i < |starts[1..]| ==> starts[1..][i] == starts[i + 1];
      StartRun(s1, starts[1..], id);
      var t := Run(s, starts);
      forall i | 0 <= i < |starts|
        ensures starts[i].h in t.handlers && t.handlers[starts[i].h] == Handling(starts[i])
      {
        if i > 0 { assert starts[i] == starts[1..][i - 1]; }
      }
    }
  }

  lemma {:induction false} StartedConcat(a: seq<Action>, b: seq<Action>, id: Id)
    ensures Started(a + b, id) == Started(a, id) + Started(b, id)
    decreases |a|
  {
    if a == [] {
      assert a + b == b;
    } else {
      assert (a + b)[0] == a[0] && (a + b)[1..] == a[1..] + b;
      StartedConcat(a[1..], b, id);
    }
  }

  lemma {:induction false} StartedAll(starts: seq<Action>, id: Id)
    requires forall i :: 0 <= i < |starts| ==> Starts(starts[i], id)
    ensures Started(starts, id) == starts
  {
    if starts != [] {
      assert forall i :: 0 <= i < |starts[1..]| ==> starts[1..][i] == starts[i + 1];
      StartedAll(starts[1..], id);
    }
  }

  lemma {:induction false} StartedNone(acts: seq<Action>, id: Id)
    requires forall i :: 0 <= i < |acts| ==> acts[i].Step?
    ensures Started(acts, id) == []
  {
    if acts != [] {
      assert forall i :: 0 <= i < |acts[1..]| ==> acts[1..][i] == acts[i + 1];
      StartedNone(acts[1..], id);
    }
  }

  /** A response, and a handler on another thread. */
  predicate Rivals(starts: seq<Action>, i: int, j: int) {
    && 0 <= i < |starts| && 0 <= j < |starts| && starts[i].Response?
    && (starts[j].Response? || starts[j].Timeout?) && starts[i].on != starts[j].on
  }

  /** With a response and a handler on another thread, some interleaving throws out of the response, the other's value in the promise. */
  lemma RaceReachable(id: Id, starts: seq<Action>, i: nat, j: nat) returns (acts: seq<Action>)
    requires StartsFor(starts, id) && Rivals(starts, i, j)
    ensures Started(acts, id) == starts && SomeThrew(Run(EMPTY, acts), id)
    ensures var t := Run(EMPTY, acts);
            id in t.descs && t.descs[id].promise == Some(if starts[j].Response? then starts[j].value else TimeoutReply(id))
  {
    var r, o := starts[i].h, starts[j].h;
    var s0 := Apply(EMPTY, New(id));
    StartRun(s0, starts, id);
    RaceThrows(Run(s0, starts), id, r, o);
    RunCons(EMPTY, New(id), starts);
    RunConcat(EMPTY, [New(id)] + starts, Race(r, o));
    acts := [New(id)] + starts + Race(r, o);
    StartedRace(id, starts, r, o);
  }

  lemma StartedRace(id: Id, starts: seq<Action>, r: nat, o: nat)
    requires forall i :: 0 <= i < |starts| ==> Starts(starts[i], id)
    ensures Started([New(id)] + starts + Race(r, o), id) == starts
  {
    RaceStartsNone(id, r, o);
    StartedConcat([New(id)] + starts, Race(r, o), id);
    StartedAfterNew(id, starts);
  }

  lemma StartedAfterNew(id: Id, starts: seq<Action>)
    requires forall i :: 0 <= i < |starts| ==> Starts(starts[i], id)
    ensures Started([New(id)] + starts, id) == starts
  {
    StartedAll(starts, id);
    assert ([New(id)] + starts)[1..] == starts;
  }

  lemma RaceStartsNone(id: Id, r: nat, o: nat)
    ensures Started(Race(r, o), id) == []
  {
    StartedNone(Race(r, o), id);
  }

  /**
   When set_value can throw out of onResponse: for given handler starts of a request, some
   interleaving throws exactly when one of them is a response and another one runs on a different
   thread. A response and the timeout of a synchronous wait are enough; a response and the timer of
   its own loop are not.
   */
  lemma ThrowsExactly(id: Id, starts: seq<Action>)
    requires StartsFor(starts, id)
    ensures (exists acts :: Started(acts, id) == starts && SomeThrew(Run(EMPTY, acts), id))
            <==> exists i, j :: Rivals(starts, i, j)
  {
    if i, j :| Rivals(starts, i, j) {
      var acts := RaceReachable(id, starts, i, j);
    } else {
      forall acts | Started(acts, id) == starts ensures !SomeThrew(Run(EMPTY, acts), id) {
        NeverThrows(acts, id);
      }
    }
  }

  /** A run whose responses for id have no handler for id on another thread never throws. */
  lemma NeverThrows(acts: seq<Action>, id: Id)
    requires forall i, j :: !Rivals(Started(acts, id), i, j)
    ensures !SomeThrew(Run(EMPTY, acts), id)
  {
    var starts := Started(acts, id);
    StartedStarts(acts, id);
    if i :| 0 <= i < |starts| && starts[i].Response? {
      forall a | a in starts ensures (a.Response? || a.Timeout?) && a.on == starts[i].on {
        var j :| 0 <= j < |starts| && starts[j] == a;
        assert !Rivals(starts, i, j);
      }
      OneThreadNeverThrows(EMPTY, acts, id, starts[i].on);
    } else {
      TimeoutsNeverThrow(EMPTY, acts, id);
    }
  }

  lemma {:induction false} StartedStarts(acts: seq<Action>, id: Id)
    ensures forall a :: a in Started(acts, id) ==> Starts(a, id)
  {
    if acts != [] { StartedStarts(acts[1..], id); }
  }
}
