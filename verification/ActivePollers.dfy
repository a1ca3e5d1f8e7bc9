/** `active_poller_t` as an object: its fields, updated in place as the source updates them. */
module ActivePollers {
  import opened PollerSpec
  import opened Sequences

  /** An entry of the events vector; entries not yet written by a poll have no user data. */
  datatype EventSlot = Unset | Written(socket: SocketId, userData: HandlerId, events: EventMask)

  datatype WaitResult = Count(n: nat) | HandlerThrew | WaitError

  /** The base poller: registrations by socket. */
  class BasePoller {
    var registered: map<SocketId, Registration>

    constructor ()
      ensures registered == map[]
    {
      registered := map[];
    }

    method Add(socket: SocketId, events: EventMask, userData: HandlerId, accepted: bool) returns (ok: bool)
      modifies this
      ensures ok <==> accepted && socket !in old(registered)
      ensures registered ==
              if ok then old(registered)[socket := Registration(events, userData)] else old(registered)
    {
      ok := accepted && socket !in registered;
      if ok {
        registered := registered[socket := Registration(events, userData)];
      }
    }

    method Remove(socket: SocketId, accepted: bool) returns (ok: bool)
      modifies this
      ensures ok <==> accepted && socket in old(registered)
      ensures registered == if ok then old(registered) - {socket} else old(registered)
    {
      ok := accepted && socket in registered;
      if ok {
        registered := registered - {socket};
      }
    }

    method Modify(socket: SocketId, events: EventMask, accepted: bool) returns (ok: bool)
      modifies this
      ensures ok <==> accepted && socket in old(registered)
      ensures registered == if ok then old(registered)[socket := old(registered)[socket].(events := events)]
                            else old(registered)
    {
      ok := accepted && socket in registered;
      if ok {
        registered := registered[socket := registered[socket].(events := events)];
      }
    }

    /** Writes the ready sockets to the front of the vector; the rest of it is left alone. */
    method WaitAll(slots: seq<EventSlot>, ready: seq<ReadySocket>) returns (filled: seq<EventSlot>)
      requires |ready| <= |slots|
      requires forall i | 0 <= i < |ready| :: ready[i].socket in registered
      ensures |filled| == |slots| && filled[|ready|..] == slots[|ready|..]
      ensures forall i | 0 <= i < |ready| ::
                filled[i] == Written(ready[i].socket, registered[ready[i].socket].userData, ready[i].events)
    {
      filled := slots;
      for i := 0 to |ready|
        invariant |filled| == |slots| && filled[|ready|..] == slots[|ready|..]
        invariant forall k | 0 <= k < i ::
                    filled[k] == Written(ready[k].socket, registered[ready[k].socket].userData, ready[k].events)
      {
        var s := ready[i].socket;
        filled := filled[i := Written(s, registered[s].userData, ready[i].events)];
      }
    }
  }

  /** std::vector::resize. */
  function Resize(slots: seq<EventSlot>, n: nat): (r: seq<EventSlot>)
    ensures |r| == n
  {
    if n <= |slots| then slots[..n] else slots + seq(n - |slots|, i => Unset)
  }

  /** PerformKeeps as an implication, for operations on an object in any state. */
  lemma OperationKeeps(p: Poller, op: Op)
    ensures Agreement(p) ==> Agreement(Perform(p, op))
  {
    if Agreement(p) {
      PerformKeeps(p, op);
    }
  }

  class ActivePoller {
    var needRebuild: bool
    const basePoller: BasePoller
    var handlers: map<SocketId, HandlerId>
    var pollerEvents: seq<EventSlot>
    var pollerHandlers: seq<HandlerId>
    var nextHandler: HandlerId

    /**
     The abstract value of the object. Each method states its whole new value; that the agreement
     survives is then a property of those values (PerformKeeps, WaitSafe, RunAgreement).
     */
    ghost function State(): Poller
      reads this, basePoller
    {
      Poller(needRebuild, basePoller.registered, handlers, |pollerEvents|,
             (set h | h in pollerHandlers), nextHandler)
    }

    ghost predicate Valid()
      reads this, basePoller
    {
      Agreement(State())
    }

    constructor ()
      ensures Valid() && State() == EMPTY && fresh(basePoller)
    {
      needRebuild := false;
      basePoller := new BasePoller();
      handlers, pollerEvents, pollerHandlers, nextHandler := map[], [], [], 0;
    }

    method Add(socket: SocketId, events: EventMask, hasTarget: bool, accepted: bool) returns (r: OpResult)
      modifies this, basePoller
      ensures pollerEvents == old(pollerEvents)
      ensures var op := Op.Add(socket, events, hasTarget, accepted);
              r == Result(old(State()), op) && State() == Perform(old(State()), op)
      ensures old(Valid()) ==> Valid()
      ensures r == InvalidArgument <==> !hasTarget
      ensures r == AlreadyAdded <==> hasTarget && socket in old(handlers)
      ensures old(Valid()) ==> (r == Ok <==> hasTarget && accepted && socket !in old(handlers))
      ensures r == Ok ==>
        && needRebuild && handlers == old(handlers)[socket := old(nextHandler)]
        && basePoller.registered == old(basePoller.registered)[socket := Registration(events, old(nextHandler))]
      ensures old(Valid()) ==> old(nextHandler) !in Live(old(State()))
      ensures r != Ok ==> State().(issued := 0) == old(State()).(issued := 0)
    {
      OperationKeeps(State(), Op.Add(socket, events, hasTarget, accepted));
      NextIsNew(State());
      if !hasTarget {
        return InvalidArgument;
      }
      var handler := nextHandler;
      nextHandler := nextHandler + 1;
      if socket in handlers {
        return AlreadyAdded;
      }
      handlers := handlers[socket := handler];
      var ok := basePoller.Add(socket, events, handlers[socket], accepted);
      if ok {
        needRebuild := true;
        return Ok;
      }
      handlers := handlers - {socket};  // roll back
      assert handlers == old(handlers);
      return BaseError;
    }

    method Remove(socket: SocketId, accepted: bool) returns (r: OpResult)
      modifies this, basePoller
      ensures pollerEvents == old(pollerEvents)
      ensures var op := Op.Remove(socket, accepted);
              r == Result(old(State()), op) && State() == Perform(old(State()), op)
      ensures old(Valid()) ==> Valid()
      ensures r == Ok <==> accepted && socket in old(basePoller.registered)
      ensures r == Ok ==>
        && needRebuild && handlers == old(handlers) - {socket}
        && basePoller.registered == old(basePoller.registered) - {socket}
      ensures r != Ok ==> State().(issued := 0) == old(State()).(issued := 0)
    {
      OperationKeeps(State(), Op.Remove(socket, accepted));
      var ok := basePoller.Remove(socket, accepted);
      if !ok {
        return BaseError;
      }
      handlers := handlers - {socket};
      needRebuild := true;
      return Ok;
    }

    method Modify(socket: SocketId, events: EventMask, accepted: bool) returns (r: OpResult)
      modifies this, basePoller
      ensures pollerEvents == old(pollerEvents)
      ensures var op := Op.Modify(socket, events, accepted);
              r == Result(old(State()), op) && State() == Perform(old(State()), op)
      ensures old(Valid()) ==> Valid()
      ensures r == Ok <==> accepted && socket in old(basePoller.registered)
      ensures r == Ok ==>
        var userData := old(basePoller.registered)[socket].userData;
        basePoller.registered == old(basePoller.registered)[socket := Registration(events, userData)]
      ensures handlers == old(handlers) && needRebuild == old(needRebuild)
      ensures r != Ok ==> State().(issued := 0) == old(State()).(issued := 0)
    {
      OperationKeeps(State(), Op.Modify(socket, events, accepted));
      var ok := basePoller.Modify(socket, events, accepted);
      return if ok then Ok else BaseError;
    }

    /** A handler body: operations on the poller it was called from. */
    method RunHandler(run: HandlerRun)
      modifies this, basePoller
      ensures pollerEvents == old(pollerEvents)
      ensures State() == PerformAll(old(State()), run.ops)
    {
      for i := 0 to |run.ops|
        invariant pollerEvents == old(pollerEvents)
        invariant PerformAll(State(), run.ops[i..]) == PerformAll(old(State()), run.ops)
      {
        var op := run.ops[i];
        assert run.ops[i..][1..] == run.ops[i + 1..];
        var r: OpResult;
        match op
        case Add(s, events, hasTarget, accepted) => r := Add(s, events, hasTarget, accepted);
        case Remove(s, accepted) => r := Remove(s, accepted);
        case Modify(s, events, accepted) => r := Modify(s, events, accepted);
      }
    }

    /** Brings both vectors up to date with the handler map, in whatever order the map is walked. */
    method RebuildVectors()
      modifies this
      ensures State() == Rebuild(old(State()))
    {
      if needRebuild {
        pollerEvents := Resize(pollerEvents, |handlers|);
        pollerHandlers := [];
        var sockets := handlers.Keys;
        while sockets != {}
          invariant sockets <= handlers.Keys && needRebuild && handlers == old(handlers)
          invariant basePoller.registered == old(basePoller.registered) && nextHandler == old(nextHandler)
          invariant forall h <- pollerHandlers :: h in handlers.Values
          invariant forall s <- handlers.Keys - sockets :: handlers[s] in pollerHandlers
          invariant pollerEvents == Resize(old(pollerEvents), |handlers|)
          decreases sockets
        {
          var s :| s in sockets;
          pollerHandlers := pollerHandlers + [handlers[s]];
          sockets := sockets - {s};
        }
        needRebuild := false;
        assert (set h | h in pollerHandlers) == handlers.Values;
      }
    }

    /**
     `wait`: rebuild if needed, poll, call the handlers of the ready sockets. `calls` records each call
     through a user-data pointer and whether the handler object was alive when it started and ended.
     */
    method Wait(outcome: PollOutcome, runs: seq<HandlerRun>) returns (r: WaitResult, calls: seq<Call>)
      requires Valid() && OutcomeOk(State(), outcome)
      modifies this, basePoller
      ensures Valid()
      ensures var d := PollerSpec.Wait(old(State()), outcome, runs);
              && State() == d.poller && calls == d.calls
              && (outcome.PollError? ==> r == WaitError)
              && (outcome.TimedOut? ==> r == Count(0))
              && (outcome.Ready? ==> r == if d.threw then HandlerThrew else Count(|outcome.sockets|))
      ensures match outcome
              case PollError => r == WaitError && calls == []
              case TimedOut => r == Count(0) && calls == []
              case Ready(ready) =>
                && EndsAsRunsSay(runs, |ready|, |calls|, r == HandlerThrew)
                && (r != HandlerThrew ==> r == Count(|ready|))
                && forall i | 0 <= i < |calls| ::
                     && ready[i].socket in old(handlers)
                     && calls[i] == Call(Event(old(handlers)[ready[i].socket], ready[i].events), true, true)
      ensures State() == StateAfter(Rebuild(old(State())), runs, |calls|)
    {
      WaitSafe(State(), outcome, runs);
      if outcome.Ready? {
        EverySocketFits(State(), outcome.sockets);
      }
      RebuildVectors();
      calls := [];
      match outcome {
        case PollError => r := WaitError;
        case TimedOut => r := Count(0);
        case Ready(ready) =>
          pollerEvents := basePoller.WaitAll(pollerEvents, ready);
          ghost var batch := Batch(old(State()), ready);
          var threw;
          calls, threw := DispatchAll(|ready|, runs, batch);
          r := if threw then HandlerThrew else Count(|ready|);
      }
    }

    /** The `for_each` over the first `count` entries of the events vector. */
    method DispatchAll(count: nat, runs: seq<HandlerRun>, ghost batch: seq<Event>)
      returns (calls: seq<Call>, threw: bool)
      requires count <= |pollerEvents| && count == |batch|
      requires forall i | 0 <= i < count ::
                 pollerEvents[i].Written? && batch[i] == Event(pollerEvents[i].userData, pollerEvents[i].events)
      modifies this, basePoller
      ensures pollerEvents == old(pollerEvents)
      ensures Dispatched(State(), calls, threw) == Dispatch(old(State()), batch, runs)
    {
      calls, threw := [], false;
      var rest := runs;
      ghost var d := Dispatch(State(), batch, runs);
      assert batch[0..] == batch;
      for i := 0 to count
        invariant pollerEvents == old(pollerEvents) && !threw
        invariant var e := Dispatch(State(), batch[i..], rest);
                  d == Dispatched(e.poller, calls + e.calls, e.threw)
      {
        var slot := pollerEvents[i];
        assert slot.Written?;  // the assertion of the source: the user data is not null
        assert batch[i..][1..] == batch[i + 1..];
        var event := Event(slot.userData, slot.events);
        var live := slot.userData in handlers.Values || slot.userData in pollerHandlers;
        ghost var before := calls;
        var run := RunOf(rest);
        RunHandler(run);
        var liveAfter := slot.userData in handlers.Values || slot.userData in pollerHandlers;
        var call := Call(event, live, liveAfter);
        calls := calls + [call];
        rest := RestOf(rest);
        if run.throws {
          threw := true;
          return;
        }
        ConcatAssociates(before, [call], Dispatch(State(), batch[i + 1..], rest).calls);
      }
      assert calls + [] == calls;
    }
  }
}
