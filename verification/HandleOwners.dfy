/**
 The wrapper objects themselves: UniqueHandle, socket_t, and the SQLite objects built on UniqueHandle. Each
 method states its effect on the object and on the library's ledger in the terms of HandleLedger.
 */
module HandleOwners {
  import opened HandleLedger

  /** The library whose handles are owned. */
  class Library {
    var ledger: Ledger

    constructor ()
      ensures ledger == Ledger({}, [], map[])
    {
      ledger := Ledger({}, [], map[]);
    }

    /** The status says whether the handle is closed; it is refused while open statements use it. */
    method CloseHandle(h: Handle) returns (ok: bool)
      modifies this
      ensures ok <==> !Busy(old(ledger), h)
      ensures ledger == CloseCall(old(ledger), h)
    {
      ok := !Busy(ledger, h);
      if ok {
        ledger := ledger.(open := ledger.open - {h});
      }
      ledger := ledger.(closed := ledger.closed + [h]);
    }

    /** Some call of the library produces a handle; which one is the library's choice. */
    method Produce(h: Handle, conn: Handle)
      modifies this
      ensures ledger == Issue(old(ledger), h, conn)
    {
      if h != 0 {
        ledger := ledger.(open := ledger.open + {h});
        if conn != 0 {
          ledger := ledger.(uses := ledger.uses[h := conn]);
        }
      }
    }
  }

  class UniqueHandle {
    var value: Handle

    constructor (h: Handle)
      ensures value == h
    {
      value := h;
    }

    /** The move constructor empties its source. */
    constructor Move(other: UniqueHandle)
      modifies other
      ensures value == old(other.value) && other.value == 0
    {
      value := other.value;
      new;
      var released := other.Release();
    }

    /** Nobody looks at the status. */
    method CloseValue(lib: Library)
      modifies lib
      ensures lib.ledger == Close(old(lib.ledger), value)
    {
      if value != 0 {
        var ignored := lib.CloseHandle(value);
      }
    }

    /** The destructor. */
    method Destroy(lib: Library)
      modifies lib
      ensures lib.ledger == Close(old(lib.ledger), value)
    {
      CloseValue(lib);
    }

    method Release() returns (h: Handle)
      modifies this
      ensures h == old(value) && value == 0
    {
      h := value;
      value := 0;
    }

    method Reset(lib: Library, h: Handle) returns (valid: bool)
      modifies this, lib
      ensures value == h && (valid <==> h != 0)
      ensures lib.ledger == ResetLedger(old(lib.ledger), old(value), h)
    {
      if h != value {
        CloseValue(lib);
        value := h;
      }
      return value != 0;
    }

    method Swap(other: UniqueHandle)
      modifies this, other
      ensures value == old(other.value) && other.value == old(value)
    {
      var temp := value;
      value := other.value;
      other.value := temp;
    }

    /** The library writes a handle through the pointer that `set()` returns. */
    method WriteThroughSet(lib: Library, h: Handle, conn: Handle)
      modifies this, lib
      ensures value == h && lib.ledger == Issue(old(lib.ledger), h, conn)
    {
      lib.Produce(h, conn);
      value := h;
    }
  }

  /** `socket_t`: the handle and the context it belongs to. `context_t` is the same without the second field. */
  class SocketOwner {
    var handle: Handle
    var ctx: Handle

    constructor (handle: Handle, ctx: Handle)
      ensures this.handle == handle && this.ctx == ctx
    {
      this.handle, this.ctx := handle, ctx;
    }

    constructor Move(other: SocketOwner)
      modifies other
      ensures handle == old(other.handle) && ctx == old(other.ctx)
      ensures other.handle == 0 && other.ctx == 0
    {
      handle, ctx := other.handle, other.ctx;
      new;
      other.handle, other.ctx := 0, 0;
    }

    method CloseSocket(lib: Library)
      modifies this, lib
      ensures handle == 0 && ctx == if old(handle) == 0 then old(ctx) else 0
      ensures lib.ledger == Close(old(lib.ledger), old(handle))
    {
      if handle == 0 {
        return;
      }
      var rc := lib.CloseHandle(handle);
      handle, ctx := 0, 0;
    }

    method Swap(other: SocketOwner)
      modifies this, other
      ensures handle == old(other.handle) && ctx == old(other.ctx)
      ensures other.handle == old(handle) && other.ctx == old(ctx)
    {
      var h, c := handle, ctx;
      handle, ctx := other.handle, other.ctx;
      other.handle, other.ctx := h, c;
    }

    /** Move assignment: the old handle is closed, the other's taken over; onto itself it only closes. */
    method MoveAssign(lib: Library, other: SocketOwner)
      modifies this, other, lib
      ensures lib.ledger == Close(old(lib.ledger), old(handle))
      ensures other == this ==> handle == 0 && ctx == if old(handle) == 0 then old(ctx) else 0
      ensures other != this ==> handle == old(other.handle) && ctx == old(other.ctx)
      ensures other != this ==> other.handle == 0 && other.ctx == if old(handle) == 0 then old(ctx) else 0
    {
      CloseSocket(lib);
      Swap(other);
    }
  }

  /** What `sqlite3_open` did: its status, and the handle it stored, which may be non-null on failure too. */
  datatype OpenOutcome = OpenOutcome(ok: bool, handle: Handle)

  datatype SqlResult = SqlOk | SqlException

  class SqliteConnection {
    const connection: UniqueHandle

    constructor ()
      ensures fresh(connection) && connection.value == 0
    {
      connection := new UniqueHandle(0);
    }

    /**
     Opens into a temporary connection and swaps only on success. Either way the temporary object's
     destructor makes the close call on what it then holds: the new handle on failure, the old one on
     success, where it is refused if statements of the old connection are open (see OpenLeaks).
     */
    method Open(lib: Library, outcome: OpenOutcome) returns (r: SqlResult)
      modifies connection, lib
      ensures r == if outcome.ok then SqlOk else SqlException
      ensures connection.value == if outcome.ok then outcome.handle else old(connection.value)
      ensures lib.ledger == Close(Issue(old(lib.ledger), outcome.handle, 0),
                                  if outcome.ok then old(connection.value) else outcome.handle)
    {
      var temp := new SqliteConnection();
      temp.connection.WriteThroughSet(lib, outcome.handle, 0);
      if !outcome.ok {
        temp.connection.Destroy(lib);
        return SqlException;
      }
      connection.Swap(temp.connection);
      temp.connection.Destroy(lib);
      return SqlOk;
    }
  }

  class SqliteStatement {
    const statement: UniqueHandle

    constructor ()
      ensures fresh(statement) && statement.value == 0
    {
      statement := new UniqueHandle(0);
    }

    /**
     Prepares straight through `set()` of the statement's own handle; on failure SQLite stores null. Binding
     the values may throw afterwards, with the handle already stored. What the wrapper held before is not
     closed (SetBalancedIffEmpty says when that is harmless).
     */
    method Prepare(lib: Library, on: SqliteConnection, outcome: OpenOutcome, bindsOk: bool) returns (r: SqlResult)
      requires !outcome.ok ==> outcome.handle == 0
      modifies statement, lib
      ensures r.SqlOk? <==> outcome.ok && bindsOk
      ensures statement.value == outcome.handle
      ensures lib.ledger == Issue(old(lib.ledger), outcome.handle, old(on.connection.value))
    {
      statement.WriteThroughSet(lib, outcome.handle, on.connection.value);
      if !outcome.ok {
        return SqlException;
      }
      return if bindsOk then SqlOk else SqlException;
    }
  }

  /** The steps of `open` on wrappers: a temporary one, written through, swapped on success, destroyed. */
  function OpenSteps(slot: Slot, temp: Slot, outcome: OpenOutcome): seq<Step> {
    [Wrap(temp, 0)] + ([WriteThroughSet(temp, outcome.handle, 0)] +
      if outcome.ok then [Swap(slot, temp)] + [Destroy(temp)] else [Destroy(temp)])
  }

  ghost predicate StepsAllowed(w: World, steps: seq<Step>)
    decreases |steps|
  {
    steps == [] || (Allowed(w, steps[0]) && StepsAllowed(After(w, steps[0]), steps[1..]))
  }

  ghost function AfterAll(w: World, steps: seq<Step>): World
    requires StepsAllowed(w, steps)
    decreases |steps|
  {
    if steps == [] then w else AfterAll(After(w, steps[0]), steps[1..])
  }

  lemma StepThen(w: World, step: Step, rest: seq<Step>)
    requires Allowed(w, step) && StepsAllowed(After(w, step), rest)
    ensures StepsAllowed(w, [step] + rest) && AfterAll(w, [step] + rest) == AfterAll(After(w, step), rest)
  {
    assert ([step] + rest)[1..] == rest;
  }

  lemma LastStep(w: World, step: Step)
    requires Allowed(w, step)
    ensures StepsAllowed(w, [step]) && AfterAll(w, [step]) == After(w, step)
  {
    var v := After(w, step);
    assert StepsAllowed(v, []) && AfterAll(v, []) == v;
    StepThen(w, step, []);
    assert [step] + [] == [step];
  }

  /** Where every `open` is after its first two steps: the temporary wrapper holds the new handle. */
  ghost function Opening(w: World, temp: Slot, h: Handle): World {
    w.(ledger := Issue(w.ledger, h, 0), owners := w.owners[temp := h])
  }

  lemma OpenStarts(w: World, temp: Slot, h: Handle, rest: seq<Step>)
    requires Safe(w) && temp !in w.owners && Fresh(w.ledger, h)
    ensures Safe(Opening(w, temp, h)) && Leaked(Opening(w, temp, h)) == Leaked(w)
    ensures
      var steps := [Wrap(temp, 0)] + ([WriteThroughSet(temp, h, 0)] + rest);
      StepsAllowed(Opening(w, temp, h), rest) ==>
        StepsAllowed(w, steps) && AfterAll(w, steps) == AfterAll(Opening(w, temp, h), rest)
  {
    var wrap, write := Wrap(temp, 0), WriteThroughSet(temp, h, 0);
    var w1 := After(w, wrap);
    StepLeaks(w, wrap);
    StepLeaks(w1, write);
    assert w.loose - {0} == w.loose;
    assert After(w1, write) == Opening(w, temp, h);
    if StepsAllowed(After(w1, write), rest) {
      StepThen(w1, write, rest);
      StepThen(w, wrap, [write] + rest);
    }
  }

  /** The old connection is as busy after a new one is opened as it was before. */
  lemma OpeningBusy(l: Ledger, h: Handle, before: Handle)
    requires Fresh(l, h)
    ensures Busy(Issue(l, h, 0), before) == Busy(l, before)
    ensures h != 0 ==> !Busy(Issue(l, h, 0), h)
  {
    if Busy(l, before) {
      var s :| s in l.open && s in l.uses && l.uses[s] == before;
      assert s in Issue(l, h, 0).open;
    }
  }

  /** Destroying the temporary wrapper, which is the last step of every `open`. */
  lemma DestroyTemp(w: World, temp: Slot)
    requires Safe(w) && temp in w.owners
    ensures
      var h := w.owners[temp];
      var v := w.(ledger := Close(w.ledger, h), owners := w.owners - {temp});
      && StepsAllowed(w, [Destroy(temp)]) && AfterAll(w, [Destroy(temp)]) == v
      && Safe(v) && Leaked(v) == Leaked(w) + if h != 0 && Busy(w.ledger, h) then {h} else {}
  {
    StepLeaks(w, Destroy(temp));
    LastStep(w, Destroy(temp));
  }

  /** The handle that `open` leaks: the old connection, if it is replaced while statements on it are open. */
  function LeakedByOpen(l: Ledger, before: Handle, ok: bool): set<Handle> {
    if ok && before != 0 && Busy(l, before) then {before} else {}
  }

  lemma OpenFails(w: World, slot: Slot, temp: Slot, h: Handle)
    requires Safe(w) && slot in w.owners && temp !in w.owners && Fresh(w.ledger, h)
    ensures
      var steps := OpenSteps(slot, temp, OpenOutcome(false, h));
      var v := w.(ledger := Close(Issue(w.ledger, h, 0), h));
      StepsAllowed(w, steps) && AfterAll(w, steps) == v && Safe(v) && Leaked(v) == Leaked(w)
  {
    OpeningBusy(w.ledger, h, 0);
    OpenStarts(w, temp, h, [Destroy(temp)]);
    DestroyTemp(Opening(w, temp, h), temp);
    assert w.owners[temp := h] - {temp} == w.owners;
  }

  lemma OpenSucceeds(w: World, slot: Slot, temp: Slot, h: Handle)
    requires Safe(w) && slot in w.owners && temp !in w.owners && Fresh(w.ledger, h)
    ensures
      var steps, before := OpenSteps(slot, temp, OpenOutcome(true, h)), w.owners[slot];
      var v := w.(ledger := Close(Issue(w.ledger, h, 0), before), owners := w.owners[slot := h]);
      && StepsAllowed(w, steps) && AfterAll(w, steps) == v && Safe(v)
      && Leaked(v) == Leaked(w) + LeakedByOpen(w.ledger, before, true)
  {
    var w2, swap := Opening(w, temp, h), Swap(slot, temp);
    OpeningBusy(w.ledger, h, w.owners[slot]);
    OpenStarts(w, temp, h, [swap] + [Destroy(temp)]);
    StepLeaks(w2, swap);
    DestroyTemp(After(w2, swap), temp);
    StepThen(w2, swap, [Destroy(temp)]);
    assert After(w2, swap).owners - {temp} == w.owners[slot := h];
  }

  /**
   `open` as steps of any run is always allowed. A failing one leaves the connection in place and closes
   the new handle; a successful one makes one close call on the old handle, and leaks it exactly when
   statements prepared on it are open.
   */
  lemma OpenLeaks(w: World, slot: Slot, temp: Slot, outcome: OpenOutcome)
    requires Safe(w) && slot in w.owners && temp !in w.owners && Fresh(w.ledger, outcome.handle)
    ensures StepsAllowed(w, OpenSteps(slot, temp, outcome))
    ensures
      var v := AfterAll(w, OpenSteps(slot, temp, outcome));
      var before := w.owners[slot];
      && Safe(v) && v.loose == w.loose
      && v.owners == w.owners[slot := if outcome.ok then outcome.handle else before]
      && v.ledger == Close(Issue(w.ledger, outcome.handle, 0), if outcome.ok then before else outcome.handle)
      && Leaked(v) == Leaked(w) + LeakedByOpen(w.ledger, before, outcome.ok)
  {
    if outcome.ok {
      OpenSucceeds(w, slot, temp, outcome.handle);
    } else {
      OpenFails(w, slot, temp, outcome.handle);
      assert w.owners[slot := w.owners[slot]] == w.owners;
    }
  }
}
