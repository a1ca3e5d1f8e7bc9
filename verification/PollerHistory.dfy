/**
 Which handler a ready socket calls, and for which events it was polled, from the history of operations
 alone: an account of one socket at a time, without maps, registrations or vectors.
 */
module PollerHistory {
  import opened PollerSpec

  /** What a user expects of one socket: not watched, or watched since operation `added` for `events`. */
  datatype Interest = NotWatched | Watched(events: EventMask, added: nat)

  /** The life of one socket under a history of operations, the others left aside. */
  function InterestIn(ops: seq<Op>, s: SocketId): Interest {
    if ops == [] then NotWatched
    else
      var n := |ops| - 1;
      var before, op := InterestIn(ops[..n], s), ops[n];
      if op.socket != s || !op.accepted then before
      else match op
        case Add(_, events, hasTarget, _) => if before.NotWatched? && hasTarget then Watched(events, n) else before
        case Remove(_, _) => NotWatched
        case Modify(_, events, _) => if before.Watched? then before.(events := events) else before
  }

  /** The handler objects created by a history: one for each `add` that was given a handler. */
  function HandlersMade(ops: seq<Op>): nat {
    if ops == [] then 0
    else
      var n := |ops| - 1;
      HandlersMade(ops[..n]) + if ops[n].Add? && ops[n].hasTarget then 1 else 0
  }

  /** An operation on `s` that the base poller would not refuse on its own account. */
  predicate Accepted(op: Op, s: SocketId) { op.socket == s && op.accepted && (op.Add? ==> op.hasTarget) }

  /**
   A socket is watched exactly when some accepted `add` of it has no accepted `remove` behind it. Then it
   is so since an `add` made while it was not watched, with the events of the last accepted `modify` since,
   or of that `add`.
   */
  lemma {:induction false} InterestMeans(ops: seq<Op>, s: SocketId)
    ensures
      InterestIn(ops, s).Watched?
      <==> exists k | 0 <= k < |ops| ::
             ops[k].Add? && Accepted(ops[k], s)
             && forall j | k < j < |ops| :: !(ops[j].Remove? && Accepted(ops[j], s))
    ensures
      InterestIn(ops, s).Watched? ==>
        var k := InterestIn(ops, s).added;
        && k < |ops| && ops[k].Add? && Accepted(ops[k], s) && InterestIn(ops[..k], s).NotWatched?
        && (forall j | k < j < |ops| :: !(ops[j].Remove? && Accepted(ops[j], s)))
        && exists m | k <= m < |ops| ::
             && (m == k || (ops[m].Modify? && Accepted(ops[m], s)))
             && ops[m].events == InterestIn(ops, s).events
             && forall j | m < j < |ops| :: !(ops[j].Modify? && Accepted(ops[j], s))
  {
    if ops != [] {
      var n := |ops| - 1;
      InterestMeans(ops[..n], s);
      assert forall k | 0 <= k <= n :: ops[..n][..k] == ops[..k];
    }
  }

  lemma PerformAllSnoc(p: Poller, ops: seq<Op>)
    requires ops != []
    ensures PerformAll(p, ops) == Perform(PerformAll(p, ops[..|ops| - 1]), ops[|ops| - 1])
  {
    var n := |ops| - 1;
    assert ops == ops[..n] + [ops[n]];
    PerformAllConcat(p, ops[..n], [ops[n]]);
    var q := PerformAll(p, ops[..n]);
    assert PerformAll(q, [ops[n]]) == PerformAll(Perform(q, ops[n]), []);
  }

  /** The entry of one socket in the base poller and in the handler map is what its history says. */
  ghost predicate EntryAsHistorySays(p: Poller, ops: seq<Op>, s: SocketId) {
    match InterestIn(ops, s)
    case NotWatched => s !in p.registered && s !in p.handlers
    case Watched(events, added) =>
      && added < |ops|
      && s in p.registered && p.registered[s] == Registration(events, HandlersMade(ops[..added]))
      && s in p.handlers && p.handlers[s] == HandlersMade(ops[..added])
  }

  lemma OpAsHistorySays(p: Poller, ops: seq<Op>, s: SocketId)
    requires ops != [] && p.issued == HandlersMade(ops[..|ops| - 1])
    requires EntryAsHistorySays(p, ops[..|ops| - 1], s)
    requires EntryAsHistorySays(p, ops[..|ops| - 1], ops[|ops| - 1].socket)
    ensures EntryAsHistorySays(Perform(p, ops[|ops| - 1]), ops, s)
  {
    var n := |ops| - 1;
    assert forall k | 0 <= k <= n :: ops[..n][..k] == ops[..k];
  }

  /** After any history, each socket has the handler of its last effective `add`, and the events asked for last. */
  lemma {:induction false} HistoryDecides(ops: seq<Op>, s: SocketId)
    ensures
      var p := PerformAll(EMPTY, ops);
      p.issued == HandlersMade(ops) && EntryAsHistorySays(p, ops, s)
  {
    if ops != [] {
      var n := |ops| - 1;
      HistoryDecides(ops[..n], s);
      HistoryDecides(ops[..n], ops[n].socket);
      PerformAllSnoc(EMPTY, ops);
      OpAsHistorySays(PerformAll(EMPTY, ops[..n]), ops, s);
    }
  }

  // ----- Waits between the operations -----

  /** Equal but for the vectors and the pending rebuild, which no operation looks at. */
  ghost predicate Alike(p: Poller, q: Poller) {
    p.registered == q.registered && p.handlers == q.handlers && p.issued == q.issued
  }

  lemma {:induction false} AlikeAll(p: Poller, q: Poller, ops: seq<Op>)
    requires Alike(p, q)
    ensures Alike(PerformAll(p, ops), PerformAll(q, ops))
    decreases |ops|
  {
    if ops != [] {
      AlikeAll(Perform(p, ops[0]), Perform(q, ops[0]), ops[1..]);
    }
  }

  /** The operations that an action makes the poller perform: for a `wait`, those of the handlers it calls. */
  ghost function OpsIn(p: Poller, a: Action): seq<Op>
    requires Possible(p, a)
  {
    match a
    case Do(op) => [op]
    case Poll(outcome, runs) => OpsOf(runs, |Wait(p, outcome, runs).calls|)
  }

  /** All operations performed in the first `n` actions of a run, from inside and outside of handlers. */
  ghost function History(states: seq<Poller>, actions: seq<Action>, n: nat): seq<Op>
    requires IsRun(states, actions) && n <= |actions|
  {
    if n == 0 then [] else History(states, actions, n - 1) + OpsIn(states[n - 1], actions[n - 1])
  }

  lemma ActionPerforms(p: Poller, a: Action)
    requires Agreement(p) && Possible(p, a)
    ensures Alike(After(p, a), PerformAll(p, OpsIn(p, a)))
  {
    match a
    case Do(op) => PerformAllSnoc(p, [op]);
    case Poll(outcome, runs) =>
      WaitSafe(p, outcome, runs);
      AlikeAll(Rebuild(p), p, OpsIn(p, a));
  }

  lemma {:induction false} RunPerforms(states: seq<Poller>, actions: seq<Action>, n: nat)
    requires IsRun(states, actions) && n <= |actions|
    ensures Alike(states[n], PerformAll(EMPTY, History(states, actions, n)))
  {
    if n > 0 {
      RunPerforms(states, actions, n - 1);
      RunAgreement(states, actions, n - 1);
      var before, ops := History(states, actions, n - 1), OpsIn(states[n - 1], actions[n - 1]);
      ActionPerforms(states[n - 1], actions[n - 1]);
      AlikeAll(states[n - 1], PerformAll(EMPTY, before), ops);
      PerformAllConcat(EMPTY, before, ops);
    }
  }

  /**
   In every run, a ready socket calls the handler given to its last effective `add`, and was polled for the
   events of that `add` or of the last accepted `modify` since, with operations from handlers included.
   */
  lemma CallsLatestHandler(states: seq<Poller>, actions: seq<Action>, i: nat, k: nat)
    requires IsRun(states, actions) && i < |actions| && actions[i].Poll?
    requires k < |Wait(states[i], actions[i].outcome, actions[i].runs).calls|
    ensures actions[i].outcome.Ready? && k < |actions[i].outcome.sockets|
    ensures
      var ready, h := actions[i].outcome.sockets[k], History(states, actions, i);
      var interest := InterestIn(h, ready.socket);
      && interest.Watched? && interest.added < |h|
      && states[i].registered[ready.socket].events == interest.events
      && Wait(states[i], actions[i].outcome, actions[i].runs).calls[k]
         == Call(Event(HandlersMade(h[..interest.added]), ready.events), true, true)
  {
    RunAgreement(states, actions, i);
    WaitSafe(states[i], actions[i].outcome, actions[i].runs);
    RunPerforms(states, actions, i);
    HistoryDecides(History(states, actions, i), actions[i].outcome.sockets[k].socket);
  }
}
