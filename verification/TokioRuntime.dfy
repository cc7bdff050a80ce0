/**
 The process-wide tokio runtime: the lazily filled slot `RT`, the runtime a user may have
 supplied, and the functions that start it and shut it down.
 */
module TokioRuntime {

  type UserRuntime = nat

  datatype Runtime = Default | UserDefined(id: UserRuntime)

  // The lazily initialised slot.
  datatype Slot = Unforced | Stopped | Running(rt: Runtime)

  // `USER_DEFINED_RT`: never set, set and still there, or set and taken.
  datatype User = Unset | Offered(id: UserRuntime) | Taken

  datatype State = State(slot: Slot, user: User, installed: seq<Runtime>)

  const Initial := State(Unforced, Unset, [])

  // `create_runtime`, installed into the slot.
  function Install(s: State): State {
    match s.user
    case Offered(id) => State(Running(UserDefined(id)), Taken, s.installed + [UserDefined(id)])
    case _ => s.(slot := Running(Default), installed := s.installed + [Default])
  }

  function Force(s: State): State {
    if s.slot == Unforced then Install(s) else s
  }

  function Started(s: State): State {
    if Force(s).slot == Stopped then Install(Force(s)) else Force(s)
  }

  function ShutDown(s: State): State {
    Force(s).(slot := Stopped)
  }

  function Supplied(s: State, id: UserRuntime): State {
    if s.user == Unset then s.(user := Offered(id)) else s
  }

  class Tokio {
    var slot: Slot
    var user: User
    ghost var installed: seq<Runtime>

    constructor ()
      ensures View() == Initial
    {
      slot, user, installed := Unforced, Unset, [];
    }

    ghost function View(): State
      reads this
    {
      State(slot, user, installed)
    }

    method CreateRuntime() returns (rt: Runtime)
      modifies this
      ensures slot == old(slot) && View().(slot := Running(rt)) == Install(old(View()))
    {
      rt := Default;
      if user.Offered? {
        rt := UserDefined(user.id);
        user := Taken;
      }
      installed := installed + [rt];
    }

    // What dereferencing the lazy static does.
    method ForceSlot()
      modifies this
      ensures View() == Force(old(View()))
    {
      if slot == Unforced {
        var rt := CreateRuntime();
        slot := Running(rt);
      }
    }

    method StartAsyncRuntime()
      modifies this
      ensures View() == Started(old(View()))
    {
      ForceSlot();
      if slot == Stopped {
        var rt := CreateRuntime();
        slot := Running(rt);
      }
    }

    method ShutdownAsyncRuntime()
      modifies this
      ensures View() == ShutDown(old(View()))
    {
      ForceSlot();
      slot := Stopped;
    }

    method CreateCustomTokioRuntime(id: UserRuntime)
      modifies this
      ensures View() == Supplied(old(View()), id)
    {
      if user == Unset {
        user := Offered(id);
      }
    }
  }

  datatype Op = Start | Shutdown | Access | Supply(id: UserRuntime)

  function Apply(s: State, op: Op): State {
    match op
    case Start => Started(s)
    case Shutdown => ShutDown(s)
    case Access => Force(s)
    case Supply(id) => Supplied(s, id)
  }

  function ApplyAll(s: State, ops: seq<Op>): State
    decreases |ops|
  {
    if ops == [] then s else ApplyAll(Apply(s, ops[0]), ops[1..])
  }

  function FirstSupplied(ops: seq<Op>): set<UserRuntime> {
    if ops == [] then {}
    else if ops[0].Supply? then {ops[0].id}
    else FirstSupplied(ops[1..])
  }

  function UserInstalls(installed: seq<Runtime>): seq<UserRuntime> {
    if installed == [] then []
    else
      var last := installed[|installed| - 1];
      UserInstalls(installed[..|installed| - 1]) + if last.UserDefined? then [last.id] else []
  }

  lemma Installed(s: State, rt: Runtime)
    ensures UserInstalls(s.installed + [rt])
         == UserInstalls(s.installed) + if rt.UserDefined? then [rt.id] else []
  {
    assert (s.installed + [rt])[..|s.installed|] == s.installed;
  }

  predicate UserInv(s: State, first: set<UserRuntime>) {
    match s.user
    case Unset => UserInstalls(s.installed) == []
    case Offered(id) => UserInstalls(s.installed) == [] && first == {id}
    case Taken => |UserInstalls(s.installed)| == 1 && first == {UserInstalls(s.installed)[0]}
  }

  lemma InstallKeepsUserInv(s: State, first: set<UserRuntime>)
    requires UserInv(s, first)
    ensures UserInv(Install(s), first) && (Install(s).user == Unset <==> s.user == Unset)
  {
    Installed(s, if s.user.Offered? then UserDefined(s.user.id) else Default);
  }

  lemma ForceKeepsUserInv(s: State, first: set<UserRuntime>)
    requires UserInv(s, first)
    ensures UserInv(Force(s), first) && (Force(s).user == Unset <==> s.user == Unset)
  {
    if s.slot == Unforced {
      InstallKeepsUserInv(s, first);
    }
  }

  lemma StartKeepsUserInv(s: State, first: set<UserRuntime>)
    requires UserInv(s, first)
    ensures UserInv(Started(s), first) && (Started(s).user == Unset <==> s.user == Unset)
  {
    ForceKeepsUserInv(s, first);
    if Force(s).slot == Stopped {
      InstallKeepsUserInv(Force(s), first);
    }
  }

  // `first` is what the environment has supplied first so far, if anything.
  lemma OpKeepsUserInv(s: State, op: Op, first: set<UserRuntime>)
    requires UserInv(s, first) && (s.user == Unset ==> first == {})
    ensures UserInv(Apply(s, op), if s.user == Unset && op.Supply? then {op.id} else first)
    ensures Apply(s, op).user == Unset <==> s.user == Unset && !op.Supply?
  {
    match op {
      case Start => StartKeepsUserInv(s, first);
      case Shutdown => ForceKeepsUserInv(s, first);
      case Access => ForceKeepsUserInv(s, first);
      case Supply(_) =>
    }
  }

  lemma {:induction false} UserInvKept(s: State, ops: seq<Op>, first: set<UserRuntime>)
    requires UserInv(s, first) && (s.user == Unset ==> first == {})
    ensures UserInv(ApplyAll(s, ops), if s.user == Unset then FirstSupplied(ops) else first)
    decreases |ops|
  {
    if ops != [] {
      OpKeepsUserInv(s, ops[0], first);
      var first' := if s.user == Unset && ops[0].Supply? then {ops[0].id} else first;
      UserInvKept(Apply(s, ops[0]), ops[1..], first');
    }
  }

  // Over any sequence of starts, shutdowns, accesses and supplies, a supplied runtime is
  // installed at most once, and only the one supplied first ever is.
  lemma SuppliedRuntimeRunsOnce(ops: seq<Op>)
    ensures var installs := UserInstalls(ApplyAll(Initial, ops).installed);
      |installs| <= 1 && (|installs| == 1 ==> FirstSupplied(ops) == {installs[0]})
  {
    UserInvKept(Initial, ops, {});
  }

  // The last start or shutdown, if there was one.
  function LastSwitch(ops: seq<Op>): set<Op> {
    if ops == [] then {}
    else
      var last := ops[|ops| - 1];
      if last == Start || last == Shutdown then {last} else LastSwitch(ops[..|ops| - 1])
  }

  lemma {:induction false} OneMoreOp(s: State, ops: seq<Op>, op: Op)
    ensures ApplyAll(s, ops + [op]) == Apply(ApplyAll(s, ops), op)
    decreases |ops|
  {
    if ops == [] {
      assert [op][1..] == [];
    } else {
      assert (ops + [op])[1..] == ops[1..] + [op];
      OneMoreOp(Apply(s, ops[0]), ops[1..], op);
    }
  }

  // Over any sequence of operations the runtime is running if and only if the last switch
  // was a start, or there was none and something has asked for it: an access starts it
  // once and never again.
  lemma {:induction false} RunningExactly(ops: seq<Op>)
    ensures var slot := ApplyAll(Initial, ops).slot;
      && (slot.Running? <==> LastSwitch(ops) == {Start} || (LastSwitch(ops) == {} && Access in ops))
      && (slot.Unforced? <==> LastSwitch(ops) == {} && Access !in ops)
  {
    if ops != [] {
      var init, last := ops[..|ops| - 1], ops[|ops| - 1];
      RunningExactly(init);
      assert ops == init + [last];
      OneMoreOp(Initial, init, last);
      assert Access in ops <==> Access in init || last == Access;
    }
  }

  // ----- which operations create a runtime, and which runtime each creates

  predicate Touches(op: Op) {
    op.Start? || op.Shutdown? || op.Access?
  }

  // The operation at `i` creates a runtime: it is the first to touch the slot, or a start
  // after a shutdown.
  predicate Creates(ops: seq<Op>, i: nat)
    requires i < |ops|
  {
    || (Touches(ops[i]) && forall j | 0 <= j < i :: !Touches(ops[j]))
    || (ops[i].Start? && LastSwitch(ops[..i]) == {Shutdown})
  }

  function Creations(ops: seq<Op>): nat {
    if ops == [] then 0
    else Creations(ops[..|ops| - 1]) + if Creates(ops, |ops| - 1) then 1 else 0
  }

  // Some runtime is created after one was supplied.
  predicate CreatesAfterSupply(ops: seq<Op>) {
    exists i, j :: 0 <= j < i < |ops| && ops[j].Supply? && Creates(ops, i)
  }

  lemma {:induction false} SlotIs(ops: seq<Op>)
    ensures var s := ApplyAll(Initial, ops);
      && (s.slot.Unforced? <==> forall j | 0 <= j < |ops| :: !Touches(ops[j]))
      && (s.slot.Stopped? <==> LastSwitch(ops) == {Shutdown})
      && (s.user == Unset <==> forall j | 0 <= j < |ops| :: !ops[j].Supply?)
    decreases |ops|
  {
    if ops != [] {
      var init, last := ops[..|ops| - 1], ops[|ops| - 1];
      SlotIs(init);
      assert ops == init + [last];
      OneMoreOp(Initial, init, last);
      assert forall j | 0 <= j < |init| :: ops[j] == init[j];
    }
  }

  lemma CreatesEarlier(ops: seq<Op>, i: nat)
    requires i < |ops| - 1
    ensures Creates(ops[..|ops| - 1], i) <==> Creates(ops, i)
  {
    assert ops[..|ops| - 1][..i] == ops[..i];
  }

  predicate CreatesNow(s: State, op: Op) {
    (s.slot.Unforced? && Touches(op)) || (s.slot.Stopped? && op.Start?)
  }

  // One operation installs a runtime if it creates one, and then the one on offer.
  lemma OpInstalls(s: State, op: Op)
    ensures Apply(s, op).installed == s.installed
      + if !CreatesNow(s, op) then [] else if s.user.Offered? then [UserDefined(s.user.id)] else [Default]
    ensures Apply(s, op).user.Taken? <==> s.user.Taken? || (s.user.Offered? && CreatesNow(s, op))
  {
    assert s.installed + [] == s.installed;
  }

  lemma LastCreates(ops: seq<Op>)
    requires ops != []
    ensures var s, last := ApplyAll(Initial, ops[..|ops| - 1]), ops[|ops| - 1];
      && ApplyAll(Initial, ops) == Apply(s, last)
      && (Creates(ops, |ops| - 1) <==> CreatesNow(s, last))
      && (s.user != Unset <==> exists j :: 0 <= j < |ops| - 1 && ops[j].Supply?)
  {
    var init, last := ops[..|ops| - 1], ops[|ops| - 1];
    assert ops == init + [last];
    OneMoreOp(Initial, init, last);
    SlotIs(init);
    assert forall j | 0 <= j < |init| :: ops[j] == init[j];
  }

  lemma OneMoreCreation(ops: seq<Op>)
    requires ops != []
    ensures var init, k := ops[..|ops| - 1], |ops| - 1;
      CreatesAfterSupply(ops)
      <==> CreatesAfterSupply(init) || (Creates(ops, k) && exists j :: 0 <= j < k && ops[j].Supply?)
  {
    var init, k := ops[..|ops| - 1], |ops| - 1;
    forall i: nat | i < k
      ensures Creates(init, i) <==> Creates(ops, i)
    {
      CreatesEarlier(ops, i);
    }
    if i, j :| 0 <= j < i < |init| && init[j].Supply? && Creates(init, i) {
      assert ops[j].Supply? && Creates(ops, i);
    }
    if i, j :| 0 <= j < i < |ops| && ops[j].Supply? && Creates(ops, i) && i < k {
      assert init[j].Supply? && Creates(init, i);
    }
  }

  // Over any sequence of operations a runtime is installed for each that creates one, and
  // for no other; and the supplied runtime is among them if and only if one was created
  // after it was supplied.
  lemma {:induction false} InstalledExactly(ops: seq<Op>)
    ensures var s := ApplyAll(Initial, ops);
      && |s.installed| == Creations(ops)
      && (UserInstalls(s.installed) != [] <==> CreatesAfterSupply(ops))
      && (s.user.Taken? <==> CreatesAfterSupply(ops))
  {
    if ops != [] {
      var init := ops[..|ops| - 1];
      var s, last := ApplyAll(Initial, init), ops[|ops| - 1];
      InstalledExactly(init);
      LastCreates(ops);
      OneMoreCreation(ops);
      OpInstalls(s, last);
      Installed(s, if s.user.Offered? then UserDefined(s.user.id) else Default);
      assert s.installed + [] == s.installed;
    }
  }
}
