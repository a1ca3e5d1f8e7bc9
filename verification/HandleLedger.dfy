/**
 Ownership of library handles: which are open, which close calls were made, and who owns the handles, over
 any sequence of operations on any number of wrapper objects. A close call can be refused: a connection
 stays open while statements prepared on it are open, and no wrapper looks at the status.
 */
module HandleLedger {

  type Handle = nat  // 0 is the null handle
  type Slot = nat    // a wrapper object

  /** The library's view: open handles, every close call in order, and the connection of each statement. */
  datatype Ledger = Ledger(open: set<Handle>, closed: seq<Handle>, uses: map<Handle, Handle>)

  /** Some open statement was prepared on `h`. */
  predicate Busy(l: Ledger, h: Handle) { exists s | s in l.open :: s in l.uses && l.uses[s] == h }

  /** A close call: it is recorded either way, and refused while the handle is busy. */
  function CloseCall(l: Ledger, h: Handle): Ledger {
    l.(open := if Busy(l, h) then l.open else l.open - {h}, closed := l.closed + [h])
  }

  /** The guarded close of every wrapper: nothing happens for null. */
  function Close(l: Ledger, h: Handle): Ledger { if h == 0 then l else CloseCall(l, h) }

  /** The library hands out a handle, or null on failure; `conn` is the connection of a statement, else 0. */
  function Issue(l: Ledger, h: Handle, conn: Handle): Ledger {
    if h == 0 then l
    else l.(open := l.open + {h}, uses := if conn == 0 then l.uses else l.uses[h := conn])
  }

  /** Differs from every handle issued before. */
  ghost predicate Fresh(l: Ledger, h: Handle) {
    h == 0 || (h !in l.open && h !in l.closed && h !in l.uses && h !in l.uses.Values)
  }

  // ----- Single operations on handle values -----

  function ResetLedger(l: Ledger, value: Handle, h: Handle): Ledger {
    if h == value then l else Close(l, value)
  }

  /** Move assignment of socket_t and context_t: close the target, then swap; on itself it only closes. */
  function MoveAssigned(owners: map<Slot, Handle>, to: Slot, from: Slot): map<Slot, Handle>
    requires to in owners && from in owners
  {
    if to == from then owners[to := 0] else owners[to := owners[from]][from := 0]
  }

  // ----- Wrapper objects -----

  /** `loose`: open handles held by the program outside any wrapper, after acquiring or releasing them. */
  datatype World = World(ledger: Ledger, owners: map<Slot, Handle>, loose: set<Handle>)

  const EMPTY := World(Ledger({}, [], map[]), map[], {})

  datatype Step =
    | Acquire(h: Handle)
    | Wrap(slot: Slot, h: Handle)
    | MoveConstruct(slot: Slot, from: Slot)
    | MoveAssign(slot: Slot, from: Slot)
    | Release(slot: Slot)
    | Reset(slot: Slot, h: Handle)
    | Swap(slot: Slot, other: Slot)
    | CloseOwned(slot: Slot)
    | WriteThroughSet(slot: Slot, h: Handle, conn: Handle)
    | Destroy(slot: Slot)

  /**
   What the types and the library allow: issued handles are fresh, adopted handles are the caller's to
   give, and statements are prepared on open connections.
   */
  ghost predicate Allowed(w: World, step: Step) {
    match step
    case Acquire(h) => Fresh(w.ledger, h)
    case Wrap(slot, h) => slot !in w.owners && (h == 0 || h in w.loose)
    case MoveConstruct(slot, from) => slot !in w.owners && from in w.owners
    case MoveAssign(slot, from) => slot in w.owners && from in w.owners
    case Release(slot) => slot in w.owners
    case Reset(slot, h) => slot in w.owners && (h == 0 || h == w.owners[slot] || h in w.loose)
    case Swap(slot, other) => slot in w.owners && other in w.owners
    case CloseOwned(slot) => slot in w.owners
    case WriteThroughSet(slot, h, conn) =>
      slot in w.owners && Fresh(w.ledger, h) && (h != 0 && conn != 0 ==> conn in w.ledger.open - w.ledger.uses.Keys)
    case Destroy(slot) => slot in w.owners
  }

  ghost function After(w: World, step: Step): World
    requires Allowed(w, step)
  {
    match step
    case Acquire(h) => w.(ledger := Issue(w.ledger, h, 0), loose := if h == 0 then w.loose else w.loose + {h})
    case Wrap(slot, h) => w.(owners := w.owners[slot := h], loose := w.loose - {h})
    case MoveConstruct(slot, from) => w.(owners := w.owners[slot := w.owners[from]][from := 0])
    case MoveAssign(slot, from) =>
      w.(ledger := Close(w.ledger, w.owners[slot]), owners := MoveAssigned(w.owners, slot, from))
    case Release(slot) =>
      var h := w.owners[slot];
      w.(owners := w.owners[slot := 0], loose := if h == 0 then w.loose else w.loose + {h})
    case Reset(slot, h) =>
      w.(ledger := ResetLedger(w.ledger, w.owners[slot], h), owners := w.owners[slot := h], loose := w.loose - {h})
    case Swap(slot, other) => w.(owners := w.owners[slot := w.owners[other]][other := w.owners[slot]])
    case CloseOwned(slot) => w.(ledger := Close(w.ledger, w.owners[slot]), owners := w.owners[slot := 0])
    case WriteThroughSet(slot, h, conn) => w.(ledger := Issue(w.ledger, h, conn), owners := w.owners[slot := h])
    case Destroy(slot) => w.(ledger := Close(w.ledger, w.owners[slot]), owners := w.owners - {slot})
  }

  /** The handle on which a step makes a close call, or null. */
  function ClosedBy(w: World, step: Step): Handle
    requires step.MoveAssign? || step.Reset? || step.CloseOwned? || step.Destroy? ==> step.slot in w.owners
  {
    match step
    case Reset(slot, h) => if h == w.owners[slot] then 0 else w.owners[slot]
    case MoveAssign(slot, _) => w.owners[slot]
    case CloseOwned(slot) => w.owners[slot]
    case Destroy(slot) => w.owners[slot]
    case _ => 0
  }

  /**
   The caller's duty: `set()` is written through only on an empty wrapper, and a connection is closed only
   when no statement prepared on it is open.
   */
  ghost predicate Disciplined(w: World, step: Step)
    requires Allowed(w, step)
  {
    && (step.WriteThroughSet? ==> w.owners[step.slot] == 0)
    && (ClosedBy(w, step) != 0 ==> !Busy(w.ledger, ClosedBy(w, step)))
  }

  // ----- Balance -----

  /** The non-null handles some wrappers hold. */
  function Held(owners: map<Slot, Handle>): set<Handle> {
    set s | s in owners && owners[s] != 0 :: owners[s]
  }

  ghost predicate SingleHolder(owners: map<Slot, Handle>) {
    forall s, t | s in owners && t in owners && s != t && owners[s] != 0 :: owners[s] != owners[t]
  }

  ghost predicate Distinct(s: seq<Handle>) { forall i, j | 0 <= i < j < |s| :: s[i] != s[j] }

  /** What holds whatever the caller does: no handle has two holders or gets a second close call. */
  ghost predicate Safe(w: World) {
    && 0 !in w.ledger.open
    && SingleHolder(w.owners)
    && Held(w.owners) !! w.loose
    && Held(w.owners) + w.loose <= w.ledger.open
    && Distinct(w.ledger.closed)
    && (forall h | h in w.ledger.closed :: h !in Held(w.owners) + w.loose)
  }

  /** Open handles that nobody is left to close. */
  function Leaked(w: World): set<Handle> { w.ledger.open - Held(w.owners) - w.loose }

  /** Every open handle has exactly one holder, and every handle was closed at most once, by a call that closed it. */
  ghost predicate Balanced(w: World) { Safe(w) && Leaked(w) == {} }

  lemma BalancedOpen(w: World)
    requires Balanced(w)
    ensures w.ledger.open == Held(w.owners) + w.loose
    ensures forall h | h in w.ledger.closed :: h !in w.ledger.open
  {
    forall h | h in w.ledger.open
      ensures h in Held(w.owners) + w.loose
    {
      assert h !in Leaked(w);
    }
  }

  /** The handles that one step loses: the one overwritten, or the one whose close call is refused. */
  ghost function LostBy(w: World, step: Step): set<Handle>
    requires Allowed(w, step)
  {
    if step.WriteThroughSet? then {w.owners[step.slot]} - {0}
    else if ClosedBy(w, step) != 0 && Busy(w.ledger, ClosedBy(w, step)) then {ClosedBy(w, step)}
    else {}
  }

  /** Giving one wrapper another handle changes what is held by just these two handles. */
  lemma PutHeld(owners: map<Slot, Handle>, slot: Slot, h: Handle)
    requires SingleHolder(owners) && h !in Held(owners)
    ensures
      var after := owners[slot := h];
      && SingleHolder(after)
      && Held(after) == Held(owners) - (if slot in owners then {owners[slot]} else {}) + ({h} - {0})
  {
    var after := owners[slot := h];
    forall g | g in Held(owners) && !(slot in owners && g == owners[slot])
      ensures g in Held(after)
    {
      var s :| s in owners && owners[s] == g;
      assert after[s] == g;
    }
    assert h != 0 ==> after[slot] in Held(after);
    assert forall s | s in owners && owners[s] != 0 :: owners[s] in Held(owners);
  }

  lemma RemoveHeld(owners: map<Slot, Handle>, slot: Slot)
    requires SingleHolder(owners) && slot in owners
    ensures SingleHolder(owners - {slot}) && Held(owners - {slot}) == Held(owners) - {owners[slot]}
  {
    var after := owners - {slot};
    forall g | g in Held(owners) && g != owners[slot]
      ensures g in Held(after)
    {
      var s :| s in owners && owners[s] == g;
      assert after[s] == g;
    }
  }

  /** Moving a handle from one wrapper to another, whatever the target held before, drops only that. */
  lemma MoveHeld(owners: map<Slot, Handle>, slot: Slot, from: Slot)
    requires SingleHolder(owners) && from in owners && slot != from
    ensures
      var after := owners[slot := owners[from]][from := 0];
      && SingleHolder(after)
      && Held(after) == Held(owners) - (if slot in owners then {owners[slot]} else {})
  {
    var h := owners[from];
    PutHeld(owners, from, 0);
    PutHeld(owners[from := 0], slot, h);
    assert owners[from := 0][slot := h] == owners[slot := h][from := 0];
    assert h != 0 ==> h in Held(owners);
    assert slot in owners && owners[slot] != 0 ==> owners[slot] != h;
  }

  lemma SwapHeld(owners: map<Slot, Handle>, slot: Slot, other: Slot)
    requires SingleHolder(owners) && slot in owners && other in owners
    ensures
      var after := owners[slot := owners[other]][other := owners[slot]];
      SingleHolder(after) && Held(after) == Held(owners)
  {
    var after := owners[slot := owners[other]][other := owners[slot]];
    assert after.Keys == owners.Keys;
    forall g | g in Held(owners)
      ensures g in Held(after)
    {
      var s :| s in owners && owners[s] == g;
      assert after[if s == slot then other else if s == other then slot else s] == g;
    }
  }

  /** One close call on the handle of a wrapper: a first one, and refused exactly when the handle is busy. */
  lemma CloseOnce(w: World, slot: Slot)
    requires Safe(w) && slot in w.owners
    ensures
      var h := w.owners[slot];
      var l := Close(w.ledger, h);
      && Distinct(l.closed) && h !in w.loose && (h != 0 ==> h in w.ledger.open)
      && l.open == w.ledger.open - (if Busy(w.ledger, h) then {} else {h})
      && (forall g | g in l.closed :: g in w.ledger.closed || (g == h && h != 0))
  {
    if w.owners[slot] != 0 {
      assert w.owners[slot] in Held(w.owners);
    }
  }

  lemma TransferLeaks(w: World, step: Step)
    requires Safe(w) && Allowed(w, step)
    requires step.MoveConstruct? || step.MoveAssign? || step.Swap?
    ensures Safe(After(w, step)) && Leaked(After(w, step)) == Leaked(w) + LostBy(w, step)
  {
    match step
    case MoveConstruct(slot, from) => MoveHeld(w.owners, slot, from);
    case MoveAssign(slot, from) =>
      CloseOnce(w, slot);
      if slot == from {
        PutHeld(w.owners, slot, 0);
      } else {
        MoveHeld(w.owners, slot, from);
      }
      assert w.owners[slot] != 0 ==> w.owners[slot] in Held(w.owners);
    case Swap(slot, other) => SwapHeld(w.owners, slot, other);
  }

  lemma CloseLeaks(w: World, step: Step)
    requires Safe(w) && Allowed(w, step)
    requires step.Reset? || step.CloseOwned? || step.Destroy?
    ensures Safe(After(w, step)) && Leaked(After(w, step)) == Leaked(w) + LostBy(w, step)
  {
    CloseOnce(w, step.slot);
    assert w.owners[step.slot] != 0 ==> w.owners[step.slot] in Held(w.owners);
    match step
    case Reset(slot, h) =>
      if h == w.owners[slot] {
        assert w.owners[slot := h] == w.owners;
        assert w.loose - {h} == w.loose;
      } else {
        PutHeld(w.owners, slot, h);
      }
    case CloseOwned(slot) => PutHeld(w.owners, slot, 0);
    case Destroy(slot) => RemoveHeld(w.owners, slot);
  }

  lemma AcquireLeaks(w: World, step: Step)
    requires Safe(w) && Allowed(w, step)
    requires step.Acquire? || step.Wrap? || step.WriteThroughSet?
    ensures Safe(After(w, step)) && Leaked(After(w, step)) == Leaked(w) + LostBy(w, step)
  {
    match step
    case Acquire(_) =>
    case Wrap(slot, h) => PutHeld(w.owners, slot, h);
    case WriteThroughSet(slot, h, _) =>
      assert w.owners[slot] != 0 ==> w.owners[slot] in Held(w.owners);
      PutHeld(w.owners, slot, h);
  }

  lemma ReleaseLeaks(w: World, slot: Slot)
    requires Safe(w) && slot in w.owners
    ensures Safe(After(w, Release(slot))) && Leaked(After(w, Release(slot))) == Leaked(w)
  {
    assert w.owners[slot] != 0 ==> w.owners[slot] in Held(w.owners);
    PutHeld(w.owners, slot, 0);
  }

  /** Every allowed step, disciplined or not, is safe, and loses exactly the handles of LostBy. */
  lemma StepLeaks(w: World, step: Step)
    requires Safe(w) && Allowed(w, step)
    ensures Safe(After(w, step)) && Leaked(After(w, step)) == Leaked(w) + LostBy(w, step)
  {
    if step.MoveConstruct? || step.MoveAssign? || step.Swap? {
      TransferLeaks(w, step);
    } else if step.Reset? || step.CloseOwned? || step.Destroy? {
      CloseLeaks(w, step);
    } else if step.Release? {
      ReleaseLeaks(w, step.slot);
    } else {
      AcquireLeaks(w, step);
    }
  }

  /** A step keeps the balance exactly when the caller is disciplined. */
  lemma StepBalanced(w: World, step: Step)
    requires Balanced(w) && Allowed(w, step)
    ensures Balanced(After(w, step)) <==> Disciplined(w, step)
  {
    StepLeaks(w, step);
    assert LostBy(w, step) == {} <==> Disciplined(w, step) by {
      if step.WriteThroughSet? && w.owners[step.slot] != 0 {
        assert w.owners[step.slot] in LostBy(w, step);
      } else if ClosedBy(w, step) != 0 && Busy(w.ledger, ClosedBy(w, step)) {
        assert ClosedBy(w, step) in LostBy(w, step);
      }
    }
  }

  /**
   Writing through `set()` keeps the balance exactly when the wrapper was empty: otherwise the handle it
   held stays open with nobody left to close it.
   */
  lemma SetBalancedIffEmpty(w: World, slot: Slot, h: Handle, conn: Handle)
    requires Balanced(w) && Allowed(w, WriteThroughSet(slot, h, conn))
    ensures Balanced(After(w, WriteThroughSet(slot, h, conn))) <==> w.owners[slot] == 0
  {
    StepBalanced(w, WriteThroughSet(slot, h, conn));
  }

  /** Destroying a wrapper keeps the balance exactly when no open statement uses the handle it holds. */
  lemma DestroyBalancedIffIdle(w: World, slot: Slot)
    requires Balanced(w) && slot in w.owners
    ensures Balanced(After(w, Destroy(slot))) <==> w.owners[slot] == 0 || !Busy(w.ledger, w.owners[slot])
  {
    StepBalanced(w, Destroy(slot));
  }

  /**
   A statement prepared twice: every step is allowed, yet the first handle stays open when the program has
   no wrapper and no handle left.
   */
  lemma PreparedTwiceLeaks()
    ensures
      var once := After(After(EMPTY, Wrap(0, 0)), WriteThroughSet(0, 1, 0));
      && Balanced(once) && Allowed(once, WriteThroughSet(0, 2, 0))
      && var twice := After(once, WriteThroughSet(0, 2, 0));
      && Leaked(twice) == {1} && Allowed(twice, Destroy(0))
      && After(twice, Destroy(0)) == World(Ledger({1}, [2], map[]), map[], {})
  {
    var wrapped := After(EMPTY, Wrap(0, 0));
    StepBalanced(EMPTY, Wrap(0, 0));
    StepBalanced(wrapped, WriteThroughSet(0, 1, 0));
    StepLeaks(After(wrapped, WriteThroughSet(0, 1, 0)), WriteThroughSet(0, 2, 0));
  }

  /** A connection destroyed before a statement prepared on it: both get a close call, one stays open. */
  lemma ConnectionFirstLeaks()
    ensures
      var w := World(Ledger({1, 2}, [], map[2 := 1]), map[0 := 1, 1 := 2], {});
      && Balanced(w) && Allowed(w, Destroy(0)) && Allowed(After(w, Destroy(0)), Destroy(1))
      && After(After(w, Destroy(0)), Destroy(1)) == World(Ledger({1}, [1, 2], map[2 := 1]), map[], {})
      && After(After(w, Destroy(1)), Destroy(0)) == World(Ledger({}, [2, 1], map[2 := 1]), map[], {})
  {
    var w := World(Ledger({1, 2}, [], map[2 := 1]), map[0 := 1, 1 := 2], {});
    assert w.owners[0] in Held(w.owners) && w.owners[1] in Held(w.owners);
    assert Busy(w.ledger, 1) && !Busy(w.ledger, 2);
  }

  // ----- Whole runs -----

  ghost predicate IsRun(worlds: seq<World>, steps: seq<Step>) {
    && |worlds| == |steps| + 1 && worlds[0] == EMPTY
    && forall i | 0 <= i < |steps| :: Allowed(worlds[i], steps[i]) && worlds[i + 1] == After(worlds[i], steps[i])
  }

  /** The caller keeps the duties in the first `n` steps. */
  ghost predicate DisciplinedUpTo(worlds: seq<World>, steps: seq<Step>, n: nat)
    requires IsRun(worlds, steps) && n <= |steps|
  {
    forall i | 0 <= i < n :: Disciplined(worlds[i], steps[i])
  }

  /** In any run whatever, the leaked handles are exactly those that single steps lost: a leak is for good. */
  lemma {:induction false} RunLeaks(worlds: seq<World>, steps: seq<Step>, n: nat)
    requires IsRun(worlds, steps) && n <= |steps|
    ensures Safe(worlds[n])
    ensures forall h :: h in Leaked(worlds[n]) <==> exists i | 0 <= i < n :: h in LostBy(worlds[i], steps[i])
  {
    if n > 0 {
      RunLeaks(worlds, steps, n - 1);
      StepLeaks(worlds[n - 1], steps[n - 1]);
      forall h
        ensures h in Leaked(worlds[n]) <==> exists i | 0 <= i < n :: h in LostBy(worlds[i], steps[i])
      {
        assert h in Leaked(worlds[n]) <==> h in Leaked(worlds[n - 1]) || h in LostBy(worlds[n - 1], steps[n - 1]);
      }
    }
  }

  /** Any run is in balance exactly when every step up to there was disciplined. */
  lemma {:induction false} RunBalanced(worlds: seq<World>, steps: seq<Step>, n: nat)
    requires IsRun(worlds, steps) && n <= |steps|
    ensures Balanced(worlds[n]) <==> DisciplinedUpTo(worlds, steps, n)
  {
    if n > 0 {
      RunBalanced(worlds, steps, n - 1);
      RunLeaks(worlds, steps, n - 1);
      if Balanced(worlds[n - 1]) {
        StepBalanced(worlds[n - 1], steps[n - 1]);
      } else {
        StepLeaks(worlds[n - 1], steps[n - 1]);
        var h :| h in Leaked(worlds[n - 1]);
        assert h in Leaked(worlds[n]);
      }
    }
  }

  /** A statement is never prepared on a statement, so its own close call is never refused. */
  lemma {:induction false} StatementsClose(worlds: seq<World>, steps: seq<Step>, n: nat)
    requires IsRun(worlds, steps) && n <= |steps|
    ensures forall s | s in worlds[n].ledger.uses :: !Busy(worlds[n].ledger, s)
    ensures worlds[n].ledger.uses.Keys !! worlds[n].ledger.uses.Values
  {
    if n > 0 {
      StatementsClose(worlds, steps, n - 1);
      var v := worlds[n - 1];
      var step := steps[n - 1];
      assert worlds[n].ledger.uses
             == if step.WriteThroughSet? && step.h != 0 && step.conn != 0 then v.ledger.uses[step.h := step.conn]
                else v.ledger.uses;
    }
  }

  /** The handles the library handed out up to a point of a run. */
  ghost function Issued(steps: seq<Step>): set<Handle> {
    set i | 0 <= i < |steps| && (steps[i].Acquire? || steps[i].WriteThroughSet?) && steps[i].h != 0 :: steps[i].h
  }

  lemma IssuedSnoc(steps: seq<Step>, i: nat)
    requires i < |steps|
    ensures
      var step := steps[i];
      Issued(steps[..i + 1]) == Issued(steps[..i])
                                + if step.Acquire? || step.WriteThroughSet? then {step.h} - {0} else {}
  {
    var longer := steps[..i + 1];
    assert forall k | 0 <= k < i :: longer[k] == steps[..i][k];
    assert longer[i] == steps[i];
    forall h | h in Issued(steps[..i])
      ensures h in Issued(longer)
    {
      var k :| 0 <= k < i && (steps[k].Acquire? || steps[k].WriteThroughSet?) && steps[k].h == h;
      assert longer[k].h == h;
    }
    if (steps[i].Acquire? || steps[i].WriteThroughSet?) && steps[i].h != 0 {
      assert longer[i].h in Issued(longer);
    }
  }

  /** A handle leaves the open ones only by a close call. */
  lemma StepAccounts(w: World, step: Step)
    requires Safe(w) && Allowed(w, step)
    ensures
      var l := After(w, step).ledger;
      forall h :: h in l.open || h in l.closed
                  <==> h in w.ledger.open || h in w.ledger.closed
                       || ((step.Acquire? || step.WriteThroughSet?) && h == step.h && h != 0)
  {
    if step.MoveAssign? || step.Reset? || step.CloseOwned? || step.Destroy? {
      CloseOnce(w, step.slot);
      assert w.owners[step.slot] != 0 ==> w.owners[step.slot] in Held(w.owners);
    }
  }

  lemma {:induction false} RunAccounts(worlds: seq<World>, steps: seq<Step>, n: nat)
    requires IsRun(worlds, steps) && n <= |steps|
    ensures forall h :: h in worlds[n].ledger.open || h in worlds[n].ledger.closed <==> h in Issued(steps[..n])
  {
    if n > 0 {
      RunAccounts(worlds, steps, n - 1);
      RunLeaks(worlds, steps, n - 1);
      StepAccounts(worlds[n - 1], steps[n - 1]);
      IssuedSnoc(steps, n - 1);
    }
  }

  /**
   In any run, no handle gets two close calls, none is called for while it is held, and every handle ever
   issued is held, in the program's own hands, leaked, or closed.
   */
  lemma EveryHandleAccounted(worlds: seq<World>, steps: seq<Step>, n: nat, h: Handle)
    requires IsRun(worlds, steps) && n <= |steps| && h in Issued(steps[..n])
    ensures
      var w := worlds[n];
      && Distinct(w.ledger.closed)
      && (h in Held(w.owners) + w.loose ==> h in w.ledger.open && h !in w.ledger.closed)
      && (h !in Held(w.owners) + w.loose + Leaked(w) <==> h in w.ledger.closed && h !in w.ledger.open)
  {
    RunLeaks(worlds, steps, n);
    RunAccounts(worlds, steps, n);
  }

  /**
   When the last wrapper of a disciplined program is gone, every handle ever issued is either in the
   program's own hands, released and still open, or was closed: exactly once.
   */
  lemma EveryHandleClosedOnce(worlds: seq<World>, steps: seq<Step>, n: nat, h: Handle)
    requires IsRun(worlds, steps) && n <= |steps| && DisciplinedUpTo(worlds, steps, n)
    requires worlds[n].owners == map[] && h in Issued(steps[..n])
    ensures
      var w := worlds[n];
      && (h in w.loose <==> h in w.ledger.open)
      && (h !in w.loose <==> exists k | 0 <= k < |w.ledger.closed| :: w.ledger.closed[k] == h)
      && (forall j, k | 0 <= j < |w.ledger.closed| && 0 <= k < |w.ledger.closed| ::
            w.ledger.closed[j] == h && w.ledger.closed[k] == h ==> j == k)
  {
    RunBalanced(worlds, steps, n);
    EveryHandleAccounted(worlds, steps, n, h);
  }
}
