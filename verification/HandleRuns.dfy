/**
 The wrapper objects refine the ledger: performing a run of steps on real objects leaves them, and the
 library, in the state that HandleLedger computes, so every run of objects inherits what runs keep.
 */
module HandleRuns {
  import opened HandleLedger
  import opened HandleOwners

  // ----- UniqueHandle -----

  /** The live wrapper objects, by slot, and the library are in the state `w`. */
  ghost predicate Represents(w: World, lib: Library, slots: map<Slot, UniqueHandle>)
    reads lib, slots.Values
  {
    && lib.ledger == w.ledger
    && slots.Keys == w.owners.Keys
    && (forall s, t | s in slots && t in slots && s != t :: slots[s] != slots[t])
    && (forall s | s in slots :: slots[s].value == w.owners[s])
  }

  /** What a UniqueHandle offers: its move assignment cannot be instantiated, and it has no `close`. */
  predicate OnUniqueHandle(step: Step) { !step.MoveAssign? && !step.CloseOwned? }

  method MovedHandle(from: UniqueHandle) returns (wrapper: UniqueHandle)
    modifies from
    ensures fresh(wrapper) && wrapper.value == old(from.value) && from.value == 0
  {
    wrapper := new UniqueHandle.Move(from);
  }

  /** The handles in the wrapper objects. */
  ghost function HandlesOf(slots: map<Slot, UniqueHandle>): map<Slot, Handle>
    reads slots.Values
  {
    map s | s in slots :: slots[s].value
  }

  /** What an operation does to the handles in the objects, whoever keeps account of them. */
  ghost predicate ObjectsDo(step: Step, before: map<Slot, Handle>, after: map<Slot, Handle>) {
    match step
    case Acquire(_) => after == before
    case Wrap(slot, h) => after == before[slot := h]
    case MoveConstruct(slot, from) => from in before && after == before[slot := before[from]][from := 0]
    case MoveAssign(slot, from) =>
      slot in before && from in before
      && after == if slot == from then before[slot := 0] else before[slot := before[from]][from := 0]
    case Release(slot) => after == before[slot := 0]
    case Reset(slot, h) => after == before[slot := h]
    case Swap(slot, other) =>
      slot in before && other in before && after == before[slot := before[other]][other := before[slot]]
    case CloseOwned(slot) => after == before[slot := 0]
    case WriteThroughSet(slot, h, _) => after == before[slot := h]
    case Destroy(slot) => after == before - {slot}
  }

  lemma HandlesAre(w: World, lib: Library, slots: map<Slot, UniqueHandle>)
    requires Represents(w, lib, slots)
    ensures HandlesOf(slots) == w.owners
  {
  }

  /** The ledger's account of a step is what the operation does to the objects. */
  lemma StepDoes(w: World, step: Step)
    requires Allowed(w, step)
    ensures ObjectsDo(step, w.owners, After(w, step).owners)
  {
  }

  /** One step on the objects; `after` are the objects alive afterwards. */
  method Perform(lib: Library, slots: map<Slot, UniqueHandle>, ghost w: World, step: Step)
    returns (after: map<Slot, UniqueHandle>)
    requires Represents(w, lib, slots) && Allowed(w, step) && OnUniqueHandle(step)
    modifies lib, slots.Values
    ensures Represents(After(w, step), lib, after)
    ensures fresh(after.Values - slots.Values)
  {
    after := slots;
    match step
    case Acquire(h) =>
      lib.Produce(h, 0);
    case Wrap(slot, h) =>
      var wrapper := new UniqueHandle(h);
      after := slots[slot := wrapper];
    case MoveConstruct(slot, from) =>
      var wrapper := MovedHandle(slots[from]);
      after := slots[slot := wrapper];
    case Release(slot) =>
      var h := slots[slot].Release();
    case Reset(slot, h) =>
      var valid := slots[slot].Reset(lib, h);
    case Swap(slot, other) =>
      slots[slot].Swap(slots[other]);
    case WriteThroughSet(slot, h, conn) =>
      slots[slot].WriteThroughSet(lib, h, conn);
    case Destroy(slot) =>
      slots[slot].Destroy(lib);
      after := slots - {slot};
  }

  /** The same with what it means for the objects, without the ledger. */
  method PerformStep(lib: Library, slots: map<Slot, UniqueHandle>, ghost w: World, step: Step)
    returns (after: map<Slot, UniqueHandle>)
    requires Represents(w, lib, slots) && Allowed(w, step) && OnUniqueHandle(step)
    modifies lib, slots.Values
    ensures Represents(After(w, step), lib, after)
    ensures fresh(after.Values - slots.Values)
    ensures ObjectsDo(step, old(HandlesOf(slots)), HandlesOf(after))
  {
    HandlesAre(w, lib, slots);
    after := Perform(lib, slots, w, step);
    HandlesAre(After(w, step), lib, after);
    StepDoes(w, step);
  }

  /**
   A whole run on objects ends in the state of the ledger's run. Whatever the caller did, no handle had two
   close calls; if the duties were kept, each handle issued is either open or closed, and when no wrapper
   is left, the open ones are those in the program's own hands.
   */
  method PerformRun(steps: seq<Step>, ghost worlds: seq<World>)
    returns (lib: Library, slots: map<Slot, UniqueHandle>)
    requires IsRun(worlds, steps) && forall i | 0 <= i < |steps| :: OnUniqueHandle(steps[i])
    ensures Represents(worlds[|steps|], lib, slots) && Distinct(lib.ledger.closed)
    ensures Balanced(worlds[|steps|]) <==> DisciplinedUpTo(worlds, steps, |steps|)
    ensures DisciplinedUpTo(worlds, steps, |steps|) ==>
              && (forall h | h in Issued(steps) :: h in lib.ledger.open <==> h !in lib.ledger.closed)
              && (slots == map[] ==> lib.ledger.open == worlds[|steps|].loose)
  {
    lib := new Library();
    slots := map[];
    for i := 0 to |steps|
      invariant fresh(lib) && fresh(slots.Values)
      invariant Represents(worlds[i], lib, slots)
    {
      slots := PerformStep(lib, slots, worlds[i], steps[i]);
    }
    RunEnds(worlds, steps);
  }

  /** What the ledger's theorems say of the end of a run. */
  lemma RunEnds(worlds: seq<World>, steps: seq<Step>)
    requires IsRun(worlds, steps)
    ensures
      var w := worlds[|steps|];
      && Safe(w)
      && (Balanced(w) <==> DisciplinedUpTo(worlds, steps, |steps|))
      && (Balanced(w) ==>
            && (forall h | h in Issued(steps) :: h in w.ledger.open <==> h !in w.ledger.closed)
            && (w.owners == map[] ==> w.ledger.open == w.loose))
  {
    RunLeaks(worlds, steps, |steps|);
    RunBalanced(worlds, steps, |steps|);
    RunAccounts(worlds, steps, |steps|);
    assert steps[..|steps|] == steps;
    if Balanced(worlds[|steps|]) {
      BalancedOpen(worlds[|steps|]);
    }
  }

  // ----- socket_t -----

  ghost predicate RepresentsSockets(w: World, lib: Library, slots: map<Slot, SocketOwner>)
    reads lib, slots.Values
  {
    && lib.ledger == w.ledger
    && slots.Keys == w.owners.Keys
    && (forall s, t | s in slots && t in slots && s != t :: slots[s] != slots[t])
    && (forall s | s in slots :: slots[s].handle == w.owners[s])
  }

  /** What a socket offers: its handle cannot be taken out, replaced or written from outside. */
  predicate OnSocket(step: Step) { !step.Release? && !step.Reset? && !step.WriteThroughSet? }

  method MovedSocket(from: SocketOwner) returns (socket: SocketOwner)
    modifies from
    ensures fresh(socket) && socket.handle == old(from.handle) && from.handle == 0
  {
    socket := new SocketOwner.Move(from);
  }

  ghost function SocketHandlesOf(slots: map<Slot, SocketOwner>): map<Slot, Handle>
    reads slots.Values
  {
    map s | s in slots :: slots[s].handle
  }

  lemma SocketHandlesAre(w: World, lib: Library, slots: map<Slot, SocketOwner>)
    requires RepresentsSockets(w, lib, slots)
    ensures SocketHandlesOf(slots) == w.owners
  {
  }

  /** One step on sockets; `ctx` is the context that a newly wrapped handle belongs to. */
  method PerformOnSockets(lib: Library, slots: map<Slot, SocketOwner>, ghost w: World, step: Step, ctx: Handle)
    returns (after: map<Slot, SocketOwner>)
    requires RepresentsSockets(w, lib, slots) && Allowed(w, step) && OnSocket(step)
    modifies lib, slots.Values
    ensures RepresentsSockets(After(w, step), lib, after)
    ensures fresh(after.Values - slots.Values)
  {
    after := slots;
    match step
    case Acquire(h) =>
      lib.Produce(h, 0);
    case Wrap(slot, h) =>
      var socket := new SocketOwner(h, ctx);
      after := slots[slot := socket];
    case MoveConstruct(slot, from) =>
      var socket := MovedSocket(slots[from]);
      after := slots[slot := socket];
    case MoveAssign(slot, from) =>
      slots[slot].MoveAssign(lib, slots[from]);
    case Swap(slot, other) =>
      slots[slot].Swap(slots[other]);
    case CloseOwned(slot) =>
      slots[slot].CloseSocket(lib);
    case Destroy(slot) =>
      slots[slot].CloseSocket(lib);
      after := slots - {slot};
  }

  method PerformSocketStep(lib: Library, slots: map<Slot, SocketOwner>, ghost w: World, step: Step, ctx: Handle)
    returns (after: map<Slot, SocketOwner>)
    requires RepresentsSockets(w, lib, slots) && Allowed(w, step) && OnSocket(step)
    modifies lib, slots.Values
    ensures RepresentsSockets(After(w, step), lib, after)
    ensures fresh(after.Values - slots.Values)
    ensures ObjectsDo(step, old(SocketHandlesOf(slots)), SocketHandlesOf(after))
  {
    SocketHandlesAre(w, lib, slots);
    after := PerformOnSockets(lib, slots, w, step, ctx);
    SocketHandlesAre(After(w, step), lib, after);
    StepDoes(w, step);
  }

  /** Sockets are never refused a close: every allowed run on them is disciplined. */
  lemma {:induction false} SocketRunsDisciplined(worlds: seq<World>, steps: seq<Step>, n: nat)
    requires IsRun(worlds, steps) && n <= |steps|
    requires forall i | 0 <= i < |steps| :: OnSocket(steps[i])
    ensures worlds[n].ledger.uses == map[] && DisciplinedUpTo(worlds, steps, n)
  {
    if n > 0 {
      SocketRunsDisciplined(worlds, steps, n - 1);
      assert OnSocket(steps[n - 1]);
    }
  }

  /** A whole run on sockets: none is closed twice, and none stays open when the last owner is gone. */
  method PerformSocketRun(steps: seq<Step>, ghost worlds: seq<World>, ctx: Handle)
    returns (lib: Library, slots: map<Slot, SocketOwner>)
    requires IsRun(worlds, steps) && forall i | 0 <= i < |steps| :: OnSocket(steps[i])
    ensures RepresentsSockets(worlds[|steps|], lib, slots) && Balanced(worlds[|steps|])
    ensures forall h | h in Issued(steps) :: h in lib.ledger.open <==> h !in lib.ledger.closed
    ensures Distinct(lib.ledger.closed)
    ensures slots == map[] ==> lib.ledger.open == worlds[|steps|].loose
  {
    lib := new Library();
    slots := map[];
    for i := 0 to |steps|
      invariant fresh(lib) && fresh(slots.Values)
      invariant RepresentsSockets(worlds[i], lib, slots)
    {
      slots := PerformSocketStep(lib, slots, worlds[i], steps[i], ctx);
    }
    RunEnds(worlds, steps);
    SocketRunsDisciplined(worlds, steps, |steps|);
  }

  // ----- The SQLite objects among other wrappers -----

  /**
   `open` on a connection whose wrapper is one of the slots performs OpenSteps. It leaks the old connection
   exactly when it succeeds while a statement prepared on that connection is open.
   */
  method OpenAmong(lib: Library, slots: map<Slot, UniqueHandle>, ghost w: World,
                   connection: SqliteConnection, ghost slot: Slot, ghost temp: Slot, outcome: OpenOutcome)
    returns (r: SqlResult)
    requires Represents(w, lib, slots) && Safe(w)
    requires slot in slots && slots[slot] == connection.connection
    requires temp !in slots && Fresh(w.ledger, outcome.handle)
    modifies lib, connection.connection
    ensures r.SqlOk? <==> outcome.ok
    ensures StepsAllowed(w, OpenSteps(slot, temp, outcome))
    ensures
      var v := AfterAll(w, OpenSteps(slot, temp, outcome));
      && Represents(v, lib, slots) && Safe(v)
      && Leaked(v) == Leaked(w) + LeakedByOpen(old(lib.ledger), old(connection.connection.value), outcome.ok)
  {
    OpenLeaks(w, slot, temp, outcome);
    r := connection.Open(lib, outcome);
  }

  /** `prepare` performs one write through `set()`, and leaks exactly the handle the statement held before. */
  method PrepareAmong(lib: Library, slots: map<Slot, UniqueHandle>, ghost w: World, on: SqliteConnection,
                      statement: SqliteStatement, ghost slot: Slot, outcome: OpenOutcome, bindsOk: bool)
    returns (r: SqlResult)
    requires Represents(w, lib, slots) && Safe(w)
    requires slot in slots && slots[slot] == statement.statement
    requires !outcome.ok ==> outcome.handle == 0
    requires Allowed(w, WriteThroughSet(slot, outcome.handle, on.connection.value))
    modifies lib, statement.statement
    ensures r.SqlOk? <==> outcome.ok && bindsOk
    ensures
      var v := After(w, WriteThroughSet(slot, outcome.handle, old(on.connection.value)));
      && Represents(v, lib, slots) && Safe(v)
      && Leaked(v) == Leaked(w) + ({old(statement.statement.value)} - {0})
  {
    StepLeaks(w, WriteThroughSet(slot, outcome.handle, on.connection.value));
    r := statement.Prepare(lib, on, outcome, bindsOk);
  }

  // ----- Two ways to leak, on objects -----

  /**
   Two statements prepared in one object: its destructor closes the second only. The first stays open, and
   so does the connection, whose destructor's close call is refused.
   */
  method PrepareTwice(lib: Library, conn: Handle, first: Handle, second: Handle)
    requires conn != 0 && first != 0 && second != 0 && conn != first && conn != second && first != second
    requires Fresh(lib.ledger, conn) && Fresh(lib.ledger, first) && Fresh(lib.ledger, second)
    modifies lib
    ensures lib.ledger.open == old(lib.ledger).open + {conn, first}
    ensures lib.ledger.closed == old(lib.ledger).closed + [second, conn]
  {
    var connection := new SqliteConnection();
    var r := connection.Open(lib, OpenOutcome(true, conn));
    var statement := new SqliteStatement();
    r := statement.Prepare(lib, connection, OpenOutcome(true, first), true);
    r := statement.Prepare(lib, connection, OpenOutcome(true, second), true);
    statement.statement.Destroy(lib);
    assert first in lib.ledger.open && lib.ledger.uses[first] == conn;
    connection.connection.Destroy(lib);
  }

  /**
   A connection opened again while a statement prepared on it lives: the close call on the old connection is
   refused, so it stays open after both objects are gone, although every handle has had its close call.
   */
  method OpenAgain(lib: Library, conn: Handle, statementHandle: Handle, other: Handle)
    requires conn != 0 && statementHandle != 0 && other != 0
    requires conn != statementHandle && conn != other && statementHandle != other
    requires Fresh(lib.ledger, conn) && Fresh(lib.ledger, statementHandle) && Fresh(lib.ledger, other)
    modifies lib
    ensures lib.ledger.open == old(lib.ledger).open + {conn}
    ensures lib.ledger.closed == old(lib.ledger).closed + [conn, statementHandle, other]
  {
    var connection := new SqliteConnection();
    var r := connection.Open(lib, OpenOutcome(true, conn));
    var statement := new SqliteStatement();
    r := statement.Prepare(lib, connection, OpenOutcome(true, statementHandle), true);
    assert statementHandle in lib.ledger.open && lib.ledger.uses[statementHandle] == conn;
    r := connection.Open(lib, OpenOutcome(true, other));
    statement.statement.Destroy(lib);
    connection.connection.Destroy(lib);
  }
}
