/**
 `active_poller_t` on values: its four pieces of state, its operations, and a `wait` whose handlers may
 call back into the poller.
 */
module PollerSpec {

  type SocketId = nat
  type HandlerId = nat  // identity of a shared handler object; 0, 1, 2, ... in order of creation
  type EventMask = nat   // the bits of event_flags; never taken apart here

  /** What the base poller keeps for a socket: the events of interest and the user-data pointer. */
  datatype Registration = Registration(events: EventMask, userData: HandlerId)

  datatype Poller = Poller(
    needRebuild: bool,
    registered: map<SocketId, Registration>,  // in the base poller
    handlers: map<SocketId, HandlerId>,
    slots: nat,            // length of the events vector
    kept: set<HandlerId>,  // handlers the keep-alive vector refers to
    issued: nat)           // handler objects created so far

  const EMPTY := Poller(false, map[], map[], 0, {}, 0)

  /** Handler objects that some shared pointer of the poller still refers to. */
  function Live(p: Poller): set<HandlerId> { p.handlers.Values + p.kept }

  // ----- Operations -----

  /** `accepted` is the base poller's answer where its own check does not decide. */
  datatype Op =
    | Add(socket: SocketId, events: EventMask, hasTarget: bool, accepted: bool)
    | Remove(socket: SocketId, accepted: bool)
    | Modify(socket: SocketId, events: EventMask, accepted: bool)

  datatype OpResult = Ok | InvalidArgument | AlreadyAdded | BaseError

  /** The base poller refuses to add a socket twice, and to remove or modify one it does not have. */
  predicate BaseAccepts(p: Poller, op: Op) {
    op.accepted && (op.Add? <==> op.socket !in p.registered)
  }

  function Result(p: Poller, op: Op): OpResult {
    if op.Add? && !op.hasTarget then InvalidArgument
    else if op.Add? && op.socket in p.handlers then AlreadyAdded
    else if BaseAccepts(p, op) then Ok
    else BaseError
  }

  function Perform(p: Poller, op: Op): Poller {
    // The handler object is made before the map or the base poller can refuse it.
    var q := if op.Add? && op.hasTarget then p.(issued := p.issued + 1) else p;
    if Result(p, op) != Ok then q
    else match op
      case Add(s, events, _, _) =>
        q.(handlers := p.handlers[s := p.issued],
           registered := p.registered[s := Registration(events, p.issued)],
           needRebuild := true)
      case Remove(s, _) =>
        q.(handlers := p.handlers - {s}, registered := p.registered - {s}, needRebuild := true)
      case Modify(s, events, _) =>
        q.(registered := p.registered[s := p.registered[s].(events := events)])
  }

  function PerformAll(p: Poller, ops: seq<Op>): Poller
    decreases |ops|
  {
    if ops == [] then p else PerformAll(Perform(p, ops[0]), ops[1..])
  }

  // ----- Waiting -----

  /** What one handler does when called: operations on this poller, then return or an exception. */
  datatype HandlerRun = HandlerRun(ops: seq<Op>, throws: bool)

  datatype ReadySocket = ReadySocket(socket: SocketId, events: EventMask)

  datatype PollOutcome = Ready(sockets: seq<ReadySocket>) | TimedOut | PollError

  /** The library's side: it reports registered sockets, each once. */
  ghost predicate OutcomeOk(p: Poller, outcome: PollOutcome) {
    outcome.Ready? ==>
      && outcome.sockets != []
      && (forall i | 0 <= i < |outcome.sockets| :: outcome.sockets[i].socket in p.registered)
      && (forall i, j | 0 <= i < j < |outcome.sockets| :: outcome.sockets[i].socket != outcome.sockets[j].socket)
  }

  function Rebuild(p: Poller): Poller {
    if p.needRebuild then p.(slots := |p.handlers|, kept := p.handlers.Values, needRebuild := false) else p
  }

  /** An event as the base poller writes it: the user data is the one registered at the poll. */
  datatype Event = Event(handler: HandlerId, events: EventMask)

  function Batch(p: Poller, ready: seq<ReadySocket>): (es: seq<Event>)
    requires forall i | 0 <= i < |ready| :: ready[i].socket in p.registered
    ensures |es| == |ready|
    ensures forall i | 0 <= i < |ready| ::
              es[i] == Event(p.registered[ready[i].socket].userData, ready[i].events)
  {
    seq(|ready|, i requires 0 <= i < |ready| => Event(p.registered[ready[i].socket].userData, ready[i].events))
  }

  /** One call through a user-data pointer, and whether the handler object existed when it started and ended. */
  datatype Call = Call(event: Event, live: bool, liveAfter: bool)

  datatype Dispatched = Dispatched(poller: Poller, calls: seq<Call>, threw: bool)

  function RunOf(runs: seq<HandlerRun>): HandlerRun {
    if runs == [] then HandlerRun([], false) else runs[0]
  }

  function RestOf(runs: seq<HandlerRun>): seq<HandlerRun> { if runs == [] then [] else runs[1..] }

  function Dispatch(p: Poller, events: seq<Event>, runs: seq<HandlerRun>): Dispatched
    decreases |events|
  {
    if events == [] then Dispatched(p, [], false)
    else
      var after := PerformAll(p, RunOf(runs).ops);
      var call := Call(events[0], events[0].handler in Live(p), events[0].handler in Live(after));
      if RunOf(runs).throws then Dispatched(after, [call], true)
      else
        var rest := Dispatch(after, events[1..], RestOf(runs));
        Dispatched(rest.poller, [call] + rest.calls, rest.threw)
  }

  ghost function Wait(p: Poller, outcome: PollOutcome, runs: seq<HandlerRun>): Dispatched
    requires OutcomeOk(p, outcome)
  {
    if outcome.Ready? then Dispatch(Rebuild(p), Batch(p, outcome.sockets), runs)
    else Dispatched(Rebuild(p), [], false)
  }

  // ----- What a batch does -----

  /** The operations of the first `n` handlers called, in order. */
  function OpsOf(runs: seq<HandlerRun>, n: nat): seq<Op> {
    if n == 0 then [] else RunOf(runs).ops + OpsOf(RestOf(runs), n - 1)
  }

  lemma {:induction false} PerformAllConcat(p: Poller, ops: seq<Op>, more: seq<Op>)
    ensures PerformAll(p, ops + more) == PerformAll(PerformAll(p, ops), more)
    decreases |ops|
  {
    if ops == [] {
      assert ops + more == more;
    } else {
      PerformAllConcat(Perform(p, ops[0]), ops[1..], more);
      assert (ops + more)[1..] == ops[1..] + more;
    }
  }

  /** The state after the first `n` handlers of a batch. */
  function StateAfter(p: Poller, runs: seq<HandlerRun>, n: nat): Poller { PerformAll(p, OpsOf(runs, n)) }

  lemma StateAfterFirst(p: Poller, runs: seq<HandlerRun>, n: nat)
    ensures StateAfter(PerformAll(p, RunOf(runs).ops), RestOf(runs), n) == StateAfter(p, runs, n + 1)
  {
    PerformAllConcat(p, RunOf(runs).ops, OpsOf(RestOf(runs), n));
  }

  /** An exception ends the batch, and nothing else does: it is that of the last handler called. */
  ghost predicate EndsAsRunsSay(runs: seq<HandlerRun>, size: nat, calls: nat, threw: bool) {
    && calls <= size && (!threw ==> calls == size)
    && (threw <==> 0 < calls <= |runs| && runs[calls - 1].throws)
    && forall i | 0 <= i < calls - 1 && i < |runs| :: !runs[i].throws
  }

  /** Whatever its handlers do, a batch calls the events up to the first handler that throws. */
  lemma {:induction false} DispatchEnds(p: Poller, events: seq<Event>, runs: seq<HandlerRun>)
    ensures
      var d := Dispatch(p, events, runs);
      EndsAsRunsSay(runs, |events|, |d.calls|, d.threw)
    decreases |events|
  {
    if events != [] && !RunOf(runs).throws {
      DispatchEnds(PerformAll(p, RunOf(runs).ops), events[1..], RestOf(runs));
    }
  }

  /** A batch ends in the state that the operations of exactly the handlers called lead to. */
  lemma {:induction false} DispatchState(p: Poller, events: seq<Event>, runs: seq<HandlerRun>)
    ensures
      var d := Dispatch(p, events, runs);
      d.poller == StateAfter(p, runs, |d.calls|)
    decreases |events|
  {
    if events != [] {
      var after := PerformAll(p, RunOf(runs).ops);
      StateAfterFirst(p, runs, 0);
      if !RunOf(runs).throws {
        DispatchState(after, events[1..], RestOf(runs));
        StateAfterFirst(p, runs, |Dispatch(after, events[1..], RestOf(runs)).calls|);
      }
    }
  }

  /** A call that starts in one state of the poller and ends in another. */
  function CallBetween(e: Event, before: Poller, after: Poller): Call {
    Call(e, e.handler in Live(before), e.handler in Live(after))
  }

  /** The call of event `k`, made after the handlers before it. */
  function CallAt(p: Poller, events: seq<Event>, runs: seq<HandlerRun>, k: nat): Call
    requires k < |events|
  {
    CallBetween(events[k], StateAfter(p, runs, k), StateAfter(p, runs, k + 1))
  }

  /** All calls of a batch in which nobody throws, the `n`th made after the handlers before it. */
  function CallsFrom(p: Poller, events: seq<Event>, runs: seq<HandlerRun>): (calls: seq<Call>)
    ensures |calls| == |events|
    decreases |events|
  {
    if events == [] then []
    else
      var after := PerformAll(p, RunOf(runs).ops);
      [CallBetween(events[0], p, after)] + CallsFrom(after, events[1..], RestOf(runs))
  }

  lemma {:induction false} DispatchCallsFrom(p: Poller, events: seq<Event>, runs: seq<HandlerRun>)
    ensures Dispatch(p, events, runs).calls <= CallsFrom(p, events, runs)
    decreases |events|
  {
    if events != [] && !RunOf(runs).throws {
      DispatchCallsFrom(PerformAll(p, RunOf(runs).ops), events[1..], RestOf(runs));
    }
  }

  lemma {:induction false} CallsFromAt(p: Poller, events: seq<Event>, runs: seq<HandlerRun>, k: nat)
    requires k < |events|
    ensures CallsFrom(p, events, runs)[k] == CallAt(p, events, runs, k)
    decreases k
  {
    var after := PerformAll(p, RunOf(runs).ops);
    if k == 0 {
      StateAfterFirst(p, runs, 0);
    } else {
      assert CallsFrom(p, events, runs)[k] == CallsFrom(after, events[1..], RestOf(runs))[k - 1];
      CallsFromAt(after, events[1..], RestOf(runs), k - 1);
      LaterCall(p, events, runs, k - 1);
    }
  }

  lemma LaterCall(p: Poller, events: seq<Event>, runs: seq<HandlerRun>, k: nat)
    requires k + 1 < |events|
    ensures CallAt(PerformAll(p, RunOf(runs).ops), events[1..], RestOf(runs), k) == CallAt(p, events, runs, k + 1)
  {
    StateAfterFirst(p, runs, k);
    StateAfterFirst(p, runs, k + 1);
    assert events[1..][k] == events[k + 1];
  }

  /** Each call finds the poller as the handlers before it left it. */
  lemma DispatchCalls(p: Poller, events: seq<Event>, runs: seq<HandlerRun>, k: nat)
    requires k < |Dispatch(p, events, runs).calls|
    ensures k < |events| && Dispatch(p, events, runs).calls[k] == CallAt(p, events, runs, k)
  {
    DispatchCallsFrom(p, events, runs);
    CallsFromAt(p, events, runs, k);
  }

  // ----- Agreement of the four pieces of state -----

  ghost predicate Agreement(p: Poller) {
    && p.registered.Keys == p.handlers.Keys
    && (forall s | s in p.handlers :: p.registered[s].userData == p.handlers[s] < p.issued)
    && (forall s, t | s in p.handlers && t in p.handlers && s != t :: p.handlers[s] != p.handlers[t])
    && (forall h | h in p.kept :: h < p.issued)
    && (!p.needRebuild ==> p.slots == |p.handlers| && p.kept == p.handlers.Values)
  }

  lemma AddKeeps(p: Poller, op: Op)
    requires Agreement(p) && op.Add?
    ensures Agreement(Perform(p, op))
  {
  }

  lemma RemoveKeeps(p: Poller, op: Op)
    requires Agreement(p) && op.Remove?
    ensures Agreement(Perform(p, op))
  {
  }

  lemma ModifyKeeps(p: Poller, op: Op)
    requires Agreement(p) && op.Modify?
    ensures Agreement(Perform(p, op))
  {
  }

  /** Every operation, successful or not, keeps the agreement, and leaves both vectors alone. */
  lemma PerformKeeps(p: Poller, op: Op)
    requires Agreement(p)
    ensures Agreement(Perform(p, op))
    ensures Perform(p, op).kept == p.kept && Perform(p, op).slots == p.slots
  {
    match op
    case Add(_, _, _, _) => AddKeeps(p, op);
    case Remove(_, _) => RemoveKeeps(p, op);
    case Modify(_, _, _) => ModifyKeeps(p, op);
  }

  lemma {:induction false} PerformAllKeeps(p: Poller, ops: seq<Op>)
    requires Agreement(p)
    ensures Agreement(PerformAll(p, ops))
    ensures PerformAll(p, ops).kept == p.kept && PerformAll(p, ops).slots == p.slots
    decreases |ops|
  {
    if ops != [] {
      PerformKeeps(p, ops[0]);
      PerformAllKeeps(Perform(p, ops[0]), ops[1..]);
    }
  }

  lemma RebuildKeeps(p: Poller)
    requires Agreement(p)
    ensures
      var q := Rebuild(p);
      && Agreement(q) && !q.needRebuild
      && q.registered == p.registered && q.handlers == p.handlers
      && q.slots == |q.handlers| && q.kept == q.handlers.Values
  {
  }

  lemma SocketsBound(ready: seq<ReadySocket>, sockets: set<SocketId>)
    requires forall i | 0 <= i < |ready| :: ready[i].socket in sockets
    requires forall i, j | 0 <= i < j < |ready| :: ready[i].socket != ready[j].socket
    ensures |ready| <= |sockets|
  {
    if ready != [] {
      var last := |ready| - 1;
      SocketsBound(ready[..last], sockets - {ready[last].socket});
    }
  }

  /** The events vector has room for every ready socket: none is dropped, whatever was added since. */
  lemma EverySocketFits(p: Poller, ready: seq<ReadySocket>)
    requires Agreement(p) && OutcomeOk(p, Ready(ready))
    ensures |ready| <= Rebuild(p).slots
  {
    RebuildKeeps(p);
    SocketsBound(ready, p.registered.Keys);
    assert |p.registered.Keys| == |p.handlers.Keys|;
  }

  // ----- Lifetime of handlers -----

  /** Every event of the batch points to a handler the keep-alive vector holds. */
  ghost predicate AllKept(p: Poller, events: seq<Event>) {
    forall i | 0 <= i < |events| :: events[i].handler in p.kept
  }

  lemma {:induction false} DispatchKeeps(p: Poller, events: seq<Event>, runs: seq<HandlerRun>)
    requires Agreement(p)
    ensures Agreement(Dispatch(p, events, runs).poller)
    decreases |events|
  {
    if events != [] {
      PerformAllKeeps(p, RunOf(runs).ops);
      if !RunOf(runs).throws {
        DispatchKeeps(PerformAll(p, RunOf(runs).ops), events[1..], RestOf(runs));
      }
    }
  }

  /** No operation touches the keep-alive vector; only a `wait` does. */
  lemma {:induction false} OpsLeaveKept(p: Poller, ops: seq<Op>)
    ensures PerformAll(p, ops).kept == p.kept
    decreases |ops|
  {
    if ops != [] {
      OpsLeaveKept(Perform(p, ops[0]), ops[1..]);
    }
  }

  /**
   Whatever the handlers do to the poller, every call of the batch reaches a handler that lives until the
   call ends: it does so in the states before and after the operations of the handler called.
   */
  lemma DispatchCallsLive(p: Poller, events: seq<Event>, runs: seq<HandlerRun>)
    requires AllKept(p, events)
    ensures
      var d := Dispatch(p, events, runs);
      && EndsAsRunsSay(runs, |events|, |d.calls|, d.threw)
      && d.poller == StateAfter(p, runs, |d.calls|)
      && forall k | 0 <= k < |d.calls| ::
           && d.calls[k] == Call(events[k], true, true)
           && events[k].handler in Live(StateAfter(p, runs, k))
           && events[k].handler in Live(StateAfter(p, runs, k + 1))
  {
    DispatchEnds(p, events, runs);
    DispatchState(p, events, runs);
    forall k | 0 <= k < |Dispatch(p, events, runs).calls|
      ensures Dispatch(p, events, runs).calls[k] == Call(events[k], true, true)
      ensures events[k].handler in Live(StateAfter(p, runs, k))
      ensures events[k].handler in Live(StateAfter(p, runs, k + 1))
    {
      DispatchCalls(p, events, runs, k);
      OpsLeaveKept(p, OpsOf(runs, k));
      OpsLeaveKept(p, OpsOf(runs, k + 1));
    }
  }

  /** The next handler object is none that is alive, and the base poller knows the sockets of the map. */
  lemma NextIsNew(p: Poller)
    ensures Agreement(p) ==> p.issued !in Live(p) && p.registered.Keys == p.handlers.Keys
  {
  }

  lemma BatchKept(p: Poller, ready: seq<ReadySocket>)
    requires Agreement(p) && OutcomeOk(p, Ready(ready))
    ensures AllKept(Rebuild(p), Batch(p, ready))
  {
    forall i | 0 <= i < |ready|
      ensures Batch(p, ready)[i].handler in Rebuild(p).kept
    {
      RebuildKeeps(p);
      assert p.handlers[ready[i].socket] in p.handlers.Values;
    }
  }

  /**
   A `wait` keeps the agreement and calls, live, the handlers registered at the poll, in order up to the
   first that throws; what is left is the state that the operations of exactly those handlers lead to.
   */
  lemma WaitSafe(p: Poller, outcome: PollOutcome, runs: seq<HandlerRun>)
    requires Agreement(p) && OutcomeOk(p, outcome)
    ensures
      var d := Wait(p, outcome, runs);
      && Agreement(d.poller)
      && d.poller == StateAfter(Rebuild(p), runs, |d.calls|)
      && (!outcome.Ready? ==> d.calls == [] && !d.threw)
      && (outcome.Ready? ==>
            && EndsAsRunsSay(runs, |outcome.sockets|, |d.calls|, d.threw)
            && forall i | 0 <= i < |d.calls| ::
                 var ready := outcome.sockets[i];
                 d.calls[i] == Call(Event(p.handlers[ready.socket], ready.events), true, true))
  {
    RebuildKeeps(p);
    if outcome.Ready? {
      BatchKept(p, outcome.sockets);
      DispatchCallsLive(Rebuild(p), Batch(p, outcome.sockets), runs);
      DispatchKeeps(Rebuild(p), Batch(p, outcome.sockets), runs);
    }
  }

  /**
   The keep-alive vector is needed: when two sockets are ready and the handler of the first removes the
   second, the second handler is still called, live, although the map no longer holds it.
   */
  lemma RemovedHandlerStillCalled(p: Poller, first: ReadySocket, second: ReadySocket)
    requires Agreement(p) && first.socket != second.socket
    requires first.socket in p.registered && second.socket in p.registered
    ensures
      var runs := [HandlerRun([Remove(second.socket, true)], false)];
      var removed := p.handlers[second.socket];
      OutcomeOk(p, Ready([first, second])) &&
      var d := Wait(p, Ready([first, second]), runs);
      && |d.calls| == 2 && d.calls[1] == Call(Event(removed, second.events), true, true)
      && removed !in d.poller.handlers.Values
  {
    var run := HandlerRun([Remove(second.socket, true)], false);
    var ready := [first, second];
    RebuildKeeps(p);
    WaitSafe(p, Ready(ready), [run]);
    DispatchTwo(Rebuild(p), Batch(p, ready), run);
    RemoveDropsHandler(Rebuild(p), run.ops[0]);
  }

  lemma DispatchTwo(p: Poller, events: seq<Event>, run: HandlerRun)
    requires |events| == 2 && !run.throws && |run.ops| == 1
    ensures
      var d := Dispatch(p, events, [run]);
      d.poller == Perform(p, run.ops[0]) && |d.calls| == 2
  {
    var after := Perform(p, run.ops[0]);
    assert PerformAll(p, run.ops) == PerformAll(after, []);
    assert RestOf([run]) == [];
    assert PerformAll(after, []) == after;
    assert Dispatch(after, events[1..], []).poller == after;
  }

  lemma RemoveDropsHandler(p: Poller, op: Op)
    requires Agreement(p) && op.Remove? && Result(p, op) == Ok
    ensures p.handlers[op.socket] !in Perform(p, op).handlers.Values
  {
  }

  // ----- Whole runs -----

  datatype Action = Do(op: Op) | Poll(outcome: PollOutcome, runs: seq<HandlerRun>)

  ghost predicate Possible(p: Poller, a: Action) { a.Poll? ==> OutcomeOk(p, a.outcome) }

  ghost function After(p: Poller, a: Action): Poller
    requires Possible(p, a)
  {
    match a
    case Do(op) => Perform(p, op)
    case Poll(outcome, runs) => Wait(p, outcome, runs).poller
  }

  ghost predicate IsRun(states: seq<Poller>, actions: seq<Action>) {
    && |states| == |actions| + 1 && states[0] == EMPTY
    && forall i | 0 <= i < |actions| ::
         Possible(states[i], actions[i]) && states[i + 1] == After(states[i], actions[i])
  }

  lemma {:induction false} RunAgreement(states: seq<Poller>, actions: seq<Action>, i: nat)
    requires IsRun(states, actions) && i < |states|
    ensures Agreement(states[i])
  {
    if i > 0 {
      RunAgreement(states, actions, i - 1);
      var a := actions[i - 1];
      if a.Do? {
        PerformKeeps(states[i - 1], a.op);
      } else {
        WaitSafe(states[i - 1], a.outcome, a.runs);
      }
    }
  }

  /** In every run, with any operations inside and between the waits, no call goes through a dangling pointer. */
  lemma RunNeverDangles(states: seq<Poller>, actions: seq<Action>, i: nat, k: nat)
    requires IsRun(states, actions) && i < |actions| && actions[i].Poll?
    requires k < |Wait(states[i], actions[i].outcome, actions[i].runs).calls|
    ensures Wait(states[i], actions[i].outcome, actions[i].runs).calls[k].live
    ensures Wait(states[i], actions[i].outcome, actions[i].runs).calls[k].liveAfter
  {
    RunAgreement(states, actions, i);
    WaitSafe(states[i], actions[i].outcome, actions[i].runs);
  }
}
