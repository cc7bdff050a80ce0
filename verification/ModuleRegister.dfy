/**
 `napi_register_module_v1` and `thread_cleanup` run by any number of environments at once,
 each on its own thread: the module counter, the wait for the first registration, the
 CustomGC function, the tokio runtime and the cleanup hook.

 The cleanup hook decrements the counter and then shuts the runtime down when it was the
 last; the model keeps the two apart, as the source does.
 */
module ModuleRegister {
  import opened TokioRuntime

  type EnvId = nat

  datatype Pc =
    | Waiting      // counted, and not the first: spins on `FIRST_MODULE_REGISTERED`
    | Exporting    // past the wait
    | CreatingGc   // read the flag as false in `create_custom_gc`
    | StartingRt   // about to start the runtime
    | AddingHook   // about to look at `ENV_CLEANUP_HOOK_ADDED`
    | StoringFirst // about to store `FIRST_MODULE_REGISTERED`
    | Live         // registered
    | ShuttingDown // its cleanup hook took the counter to zero; the runtime is still there
    | Gone

  datatype Hook = NoHook | HookOf(e: EnvId)

  datatype Register = Register(
    pcs: map<EnvId, Pc>,
    count: int,               // MODULE_COUNT
    firstRegistered: bool,
    gcMade: nat,              // CustomGC functions created
    hook: Hook,               // the one environment that has the cleanup hook
    rt: State,
    early: set<EnvId>,        // got past the wait before the flag was stored
    startedLate: set<EnvId>   // ran `start_async_runtime` between a last decrement and its shutdown
  )

  datatype Step =
    | Enter(e: EnvId)
    | PassWait(e: EnvId)
    | ReadFirst(e: EnvId)
    | CreateGc(e: EnvId)
    | StartRt(e: EnvId)
    | AddHook(e: EnvId)
    | StoreFirst(e: EnvId)
    | Exit(e: EnvId)
    | ShutRt(e: EnvId)

  predicate Is(s: Register, e: EnvId, pc: Pc) {
    e in s.pcs && s.pcs[e] == pc
  }

  predicate Enabled(s: Register, step: Step) {
    match step
    case Enter(e) => e !in s.pcs
    case PassWait(e) => Is(s, e, Waiting) && s.firstRegistered
    case ReadFirst(e) => Is(s, e, Exporting)
    case CreateGc(e) => Is(s, e, CreatingGc)
    case StartRt(e) => Is(s, e, StartingRt)
    case AddHook(e) => Is(s, e, AddingHook)
    case StoreFirst(e) => Is(s, e, StoringFirst)
    case Exit(e) => Is(s, e, Live)
    case ShutRt(e) => Is(s, e, ShuttingDown)
  }

  function Move(s: Register, e: EnvId, pc: Pc): Register {
    s.(pcs := s.pcs[e := pc])
  }

  predicate WindowOpen(s: Register) {
    exists e :: e in s.pcs && s.pcs[e] == ShuttingDown
  }

  function Apply(s: Register, step: Step): Register
    requires Enabled(s, step)
  {
    match step
    case Enter(e) =>
      Move(s, e, if s.count != 0 then Waiting else Exporting)
        .(count := s.count + 1, early := if s.count == 0 && !s.firstRegistered then s.early + {e} else s.early)
    case PassWait(e) => Move(s, e, Exporting)
    case ReadFirst(e) => Move(s, e, if s.firstRegistered then StartingRt else CreatingGc)
    case CreateGc(e) => Move(s, e, StartingRt).(gcMade := s.gcMade + 1)
    case StartRt(e) =>
      Move(s, e, AddingHook)
        .(rt := Started(s.rt), startedLate := if WindowOpen(s) then s.startedLate + {e} else s.startedLate)
    case AddHook(e) =>
      Move(s, e, StoringFirst).(hook := if s.hook == NoHook then HookOf(e) else s.hook)
    case StoreFirst(e) => Move(s, e, Live).(firstRegistered := true)
    case Exit(e) =>
      if s.hook == HookOf(e) then
        Move(s, e, if s.count == 1 then ShuttingDown else Gone).(count := s.count - 1)
      else
        Move(s, e, Gone)
    case ShutRt(e) => Move(s, e, Gone).(rt := ShutDown(s.rt))
  }

  // Entered and not left: its exit hooks have not run yet.
  predicate Present(pc: Pc) {
    pc != ShuttingDown && pc != Gone
  }

  // Past `start_async_runtime` and not left.
  predicate NeedsRuntime(pc: Pc) {
    pc == AddingHook || pc == StoringFirst || pc == Live
  }

  function PresentEnvs(s: Register): set<EnvId> {
    set e | e in s.pcs && Present(s.pcs[e])
  }

  predicate IsInitial(s: Register) {
    && s.pcs == map[] && s.count == 0 && !s.firstRegistered && s.gcMade == 0 && s.hook == NoHook
    && s.early == {} && s.startedLate == {}
  }

  ghost predicate Run(s: Register, steps: seq<Step>, s': Register)
    decreases |steps|
  {
    if steps == [] then s == s'
    else Enabled(s, steps[0]) && Run(Apply(s, steps[0]), steps[1..], s')
  }

  // A run in which a last decrement and its shutdown are one step.
  ghost predicate AtomicExitRun(s: Register, steps: seq<Step>, s': Register)
    decreases |steps|
  {
    if steps == [] then s == s'
    else
      && Enabled(s, steps[0])
      && (WindowOpen(s) ==> steps[0].ShutRt?)
      && AtomicExitRun(Apply(s, steps[0]), steps[1..], s')
  }

  // ----- the inductive invariant

  predicate HookRan(s: Register) {
    s.hook.HookOf? && s.hook.e in s.pcs && !Present(s.pcs[s.hook.e])
  }

  ghost predicate CountInv(s: Register) {
    && s.count == |s.pcs.Keys| - (if HookRan(s) then 1 else 0)
    && (s.hook.HookOf? ==> s.hook.e in s.pcs)
    && (forall e | e in s.pcs && s.pcs[e] == ShuttingDown :: s.hook == HookOf(e))
  }

  // At most one environment is early. Before the flag is stored all others wait, and the
  // CustomGC function is there exactly when that one is past creating it.
  ghost predicate FirstInv(s: Register) {
    && s.early <= s.pcs.Keys
    && (forall e | e in s.early :: s.pcs[e] != Waiting)
    && (forall e, f | e in s.early && f in s.early :: e == f)
    && (!s.firstRegistered ==> forall e | e in s.pcs :: s.pcs[e] == Waiting || e in s.early)
    && (forall e | e in s.pcs && (s.pcs[e] == Live || !Present(s.pcs[e])) :: s.firstRegistered)
    && (forall e | e in s.pcs && s.pcs[e] == CreatingGc :: e in s.early)
    && (s.gcMade > 0 ==> s.pcs != map[])
    && (forall e | e in s.early :: s.pcs[e] == Exporting || s.pcs[e] == CreatingGc ==> s.gcMade == 0)
    && (forall e | e in s.early :: s.pcs[e] != Exporting && s.pcs[e] != CreatingGc ==> s.gcMade == 1)
    && (s.firstRegistered ==> s.gcMade == 1 && forall e | e in s.early :: s.pcs[e] != Exporting && s.pcs[e] != CreatingGc)
    && s.gcMade <= 1
  }

  ghost predicate RuntimeInv(s: Register) {
    && (forall e | e in s.pcs && NeedsRuntime(s.pcs[e]) :: s.rt.slot.Running? || e in s.startedLate)
    && (WindowOpen(s) ==> forall e | e in s.pcs && NeedsRuntime(s.pcs[e]) :: e in s.startedLate)
  }

  ghost predicate Inv(s: Register) {
    CountInv(s) && FirstInv(s) && RuntimeInv(s)
  }

  lemma CountKeptAtEnds(s: Register, step: Step)
    requires Inv(s) && Enabled(s, step) && (step.Enter? || step.Exit?)
    ensures CountInv(Apply(s, step))
  {
    var s' := Apply(s, step);
    assert s'.pcs.Keys == s.pcs.Keys + {step.e};
    assert step.Enter? ==> |s'.pcs.Keys| == |s.pcs.Keys| + 1;
    if step.Exit? && s.hook == HookOf(step.e) {
      assert !HookRan(s) && HookRan(s');
    } else {
      assert HookRan(s') == HookRan(s);
    }
  }

  lemma CountKeptBetween(s: Register, step: Step)
    requires Inv(s) && Enabled(s, step) && !step.Enter? && !step.Exit?
    ensures CountInv(Apply(s, step))
  {
    var s' := Apply(s, step);
    assert s'.pcs.Keys == s.pcs.Keys;
    assert HookRan(s') == HookRan(s);
  }

  lemma CountKept(s: Register, step: Step)
    requires Inv(s) && Enabled(s, step)
    ensures CountInv(Apply(s, step))
  {
    if step.Enter? || step.Exit? {
      CountKeptAtEnds(s, step);
    } else {
      CountKeptBetween(s, step);
    }
  }

  lemma FirstKeptByEnter(s: Register, e: EnvId)
    requires Inv(s) && Enabled(s, Enter(e))
    ensures FirstInv(Apply(s, Enter(e)))
  {
    if s.count == 0 && !s.firstRegistered {
      assert !HookRan(s);
      assert s.pcs.Keys == {};
    }
  }

  lemma FirstKeptByGc(s: Register, step: Step)
    requires Inv(s) && Enabled(s, step) && (step.ReadFirst? || step.CreateGc?)
    ensures FirstInv(Apply(s, step))
  {
    assert s.pcs[step.e] == Exporting && !s.firstRegistered ==> step.e in s.early;
  }

  lemma FirstKeptInside(s: Register, step: Step)
    requires Inv(s) && Enabled(s, step) && (step.PassWait? || step.StartRt? || step.AddHook?)
    ensures FirstInv(Apply(s, step))
  {
  }

  lemma FirstKeptByStore(s: Register, step: Step)
    requires Inv(s) && Enabled(s, step) && step.StoreFirst?
    ensures FirstInv(Apply(s, step))
  {
  }

  lemma FirstKeptByExit(s: Register, step: Step)
    requires Inv(s) && Enabled(s, step) && (step.Exit? || step.ShutRt?)
    ensures FirstInv(Apply(s, step))
  {
  }

  lemma FirstKept(s: Register, step: Step)
    requires Inv(s) && Enabled(s, step) && !step.Enter? && !step.ReadFirst? && !step.CreateGc?
    ensures FirstInv(Apply(s, step))
  {
    if step.StoreFirst? {
      FirstKeptByStore(s, step);
    } else if step.Exit? || step.ShutRt? {
      FirstKeptByExit(s, step);
    } else {
      FirstKeptInside(s, step);
    }
  }

  // A window stays open, or was opened by a last exit.
  lemma WindowFrom(s: Register, step: Step)
    requires Inv(s) && Enabled(s, step) && WindowOpen(Apply(s, step))
    ensures WindowOpen(s) || (step.Exit? && s.pcs.Keys == {step.e})
  {
    var s' := Apply(s, step);
    var e :| e in s'.pcs && s'.pcs[e] == ShuttingDown;
    if step.Exit? && e == step.e {
      assert |s.pcs.Keys| == 1;
      OnlyElement(s.pcs.Keys, step.e);
    } else {
      assert e in s.pcs && s.pcs[e] == ShuttingDown;
    }
  }

  lemma RuntimeKeptByRuntime(s: Register, step: Step)
    requires Inv(s) && Enabled(s, step) && (step.StartRt? || step.ShutRt?)
    ensures RuntimeInv(Apply(s, step))
  {
    if WindowOpen(Apply(s, step)) {
      WindowFrom(s, step);
    }
  }

  lemma RuntimeKeptByRest(s: Register, step: Step)
    requires Inv(s) && Enabled(s, step) && !step.StartRt? && !step.ShutRt?
    ensures RuntimeInv(Apply(s, step))
  {
    if WindowOpen(Apply(s, step)) {
      WindowFrom(s, step);
    }
  }

  lemma RuntimeKept(s: Register, step: Step)
    requires Inv(s) && Enabled(s, step)
    ensures RuntimeInv(Apply(s, step))
  {
    if step.StartRt? || step.ShutRt? {
      RuntimeKeptByRuntime(s, step);
    } else {
      RuntimeKeptByRest(s, step);
    }
  }

  lemma OnlyElement(keys: set<EnvId>, e: EnvId)
    requires |keys| == 1 && e in keys
    ensures keys == {e}
  {
    assert |keys - {e}| == 0;
  }

  lemma InvKept(s: Register, step: Step)
    requires Inv(s) && Enabled(s, step)
    ensures Inv(Apply(s, step))
  {
    CountKept(s, step);
    RuntimeKept(s, step);
    if step.Enter? {
      FirstKeptByEnter(s, step.e);
    } else if step.ReadFirst? || step.CreateGc? {
      FirstKeptByGc(s, step);
    } else {
      FirstKept(s, step);
    }
  }

  lemma {:induction false} RunKeepsInv(s: Register, steps: seq<Step>, s': Register)
    requires Inv(s) && Run(s, steps, s')
    ensures Inv(s')
    decreases |steps|
  {
    if steps != [] {
      InvKept(s, steps[0]);
      RunKeepsInv(Apply(s, steps[0]), steps[1..], s');
    }
  }

  lemma PresentAreCounted(s: Register)
    requires CountInv(s)
    ensures |PresentEnvs(s)| <= s.count
  {
    var present := PresentEnvs(s);
    if HookRan(s) {
      Smaller(present, s.pcs.Keys - {s.hook.e});
    } else {
      Smaller(present, s.pcs.Keys);
    }
  }

  lemma {:induction false} Smaller(a: set<EnvId>, b: set<EnvId>)
    requires a <= b
    ensures |a| <= |b|
    decreases |a|
  {
    if a != {} {
      var x :| x in a;
      Smaller(a - {x}, b - {x});
    }
  }

  // Whatever the interleaving: one environment at most gets past the wait before the flag
  // is stored; the CustomGC function is created at most once, and has been once the flag
  // is stored; the counter is never below the number of present environments; and an
  // environment past `start_async_runtime` finds the runtime running, unless it started it
  // between a last decrement and the shutdown that follows.
  lemma EveryRegistration(s: Register, steps: seq<Step>, s': Register)
    requires IsInitial(s) && Run(s, steps, s')
    ensures forall e, f | e in s'.early && f in s'.early :: e == f
    ensures s'.gcMade <= 1 && (s'.firstRegistered ==> s'.gcMade == 1)
    ensures |PresentEnvs(s')| <= s'.count
    ensures forall e | e in s'.pcs && NeedsRuntime(s'.pcs[e]) :: s'.rt.slot.Running? || e in s'.startedLate
  {
    RunKeepsInv(s, steps, s');
    PresentAreCounted(s');
  }

  // With a last decrement and its shutdown as one step, every environment that needs the
  // runtime has it.
  lemma AtomicExitKeepsRuntime(s: Register, steps: seq<Step>, s': Register)
    requires IsInitial(s) && AtomicExitRun(s, steps, s')
    ensures forall e | e in s'.pcs && NeedsRuntime(s'.pcs[e]) :: s'.rt.slot.Running?
  {
    AtomicIsRun(s, steps, s');
    RunKeepsInv(s, steps, s');
  }

  lemma {:induction false} AtomicIsRun(s: Register, steps: seq<Step>, s': Register)
    requires AtomicExitRun(s, steps, s')
    ensures Run(s, steps, s') && s'.startedLate == s.startedLate
    decreases |steps|
  {
    if steps != [] {
      AtomicIsRun(Apply(s, steps[0]), steps[1..], s');
    }
  }

  // When an exit goes on to shut the runtime down: the environment owns the only cleanup
  // hook, and no other has ever been registered.
  lemma ShutdownExactly(s0: Register, steps: seq<Step>, s: Register, e: EnvId)
    requires IsInitial(s0) && Run(s0, steps, s) && Is(s, e, Live)
    ensures Is(Apply(s, Exit(e)), e, ShuttingDown) <==> s.hook == HookOf(e) && s.pcs.Keys == {e}
  {
    RunKeepsInv(s0, steps, s);
    if s.hook == HookOf(e) && s.count == 1 {
      OnlyElement(s.pcs.Keys, e);
    }
  }

  // The environment that first came to look at the hook.
  function FirstHook(steps: seq<Step>): Hook {
    if steps == [] then NoHook
    else if steps[0].AddHook? then HookOf(steps[0].e)
    else FirstHook(steps[1..])
  }

  // Over any run the hook is that of the first environment to look for it, and the
  // environments known are those that entered.
  lemma {:induction false} HookIsTheFirst(s: Register, steps: seq<Step>, s': Register)
    requires Run(s, steps, s')
    ensures s'.hook == if s.hook == NoHook then FirstHook(steps) else s.hook
    ensures forall e :: e in s'.pcs <==> e in s.pcs || Enter(e) in steps
    decreases |steps|
  {
    if steps != [] {
      assert forall step: Step :: step in steps <==> step == steps[0] || step in steps[1..];
      HookStep(s, steps[0]);
      HookIsTheFirst(Apply(s, steps[0]), steps[1..], s');
    }
  }

  lemma HookStep(s: Register, step: Step)
    requires Enabled(s, step)
    ensures Apply(s, step).hook == if s.hook == NoHook && step.AddHook? then HookOf(step.e) else s.hook
    ensures forall e :: e in Apply(s, step).pcs <==> e in s.pcs || Enter(e) == step
  {
  }

  // The same told from the run alone: an exit shuts the runtime down if and only if the
  // environment was the first to look for the hook and the only one ever to enter.
  lemma ShutdownByHistory(s0: Register, steps: seq<Step>, s: Register, e: EnvId)
    requires IsInitial(s0) && Run(s0, steps, s) && Is(s, e, Live)
    ensures Is(Apply(s, Exit(e)), e, ShuttingDown)
      <==> FirstHook(steps) == HookOf(e) && forall f :: Enter(f) in steps ==> f == e
  {
    ShutdownExactly(s0, steps, s, e);
    HookIsTheFirst(s0, steps, s);
    assert forall f :: f in s.pcs.Keys <==> Enter(f) in steps;
  }

  // ----- nobody waits for good

  // How many steps of its own an environment past the wait is from being registered.
  function Left(pc: Pc): nat {
    match pc
    case Exporting => 5
    case CreatingGc => 4
    case StartingRt => 3
    case AddingHook => 2
    case StoringFirst => 1
    case _ => 0
  }

  // Past the wait an environment needs nobody to get registered.
  lemma {:induction false} GetsLive(s: Register, e: EnvId) returns (steps: seq<Step>, s': Register)
    requires Inv(s) && e in s.pcs && Present(s.pcs[e]) && s.pcs[e] != Waiting
    ensures Run(s, steps, s') && Inv(s') && Is(s', e, Live)
    ensures forall f | f in s.pcs && f != e :: f in s'.pcs && s'.pcs[f] == s.pcs[f]
    decreases Left(s.pcs[e])
  {
    if s.pcs[e] == Live {
      steps, s' := [], s;
    } else {
      var step := NextOf(s.pcs[e], e);
      NextStep(s, e);
      InvKept(s, step);
      steps, s' := GetsLive(Apply(s, step), e);
      OneStep(s, step, steps, s');
      steps := [step] + steps;
    }
  }

  function NextOf(pc: Pc, e: EnvId): Step {
    match pc
    case Waiting => PassWait(e)
    case Exporting => ReadFirst(e)
    case CreatingGc => CreateGc(e)
    case StartingRt => StartRt(e)
    case AddingHook => AddHook(e)
    case StoringFirst => StoreFirst(e)
    case Live => Exit(e)
    case _ => ShutRt(e)
  }

  lemma NextStep(s: Register, e: EnvId)
    requires e in s.pcs && Left(s.pcs[e]) > 0
    ensures Enabled(s, NextOf(s.pcs[e], e))
    ensures var s' := Apply(s, NextOf(s.pcs[e], e));
      && e in s'.pcs && Left(s'.pcs[e]) < Left(s.pcs[e]) && Present(s'.pcs[e]) && s'.pcs[e] != Waiting
      && forall f | f in s.pcs && f != e :: f in s'.pcs && s'.pcs[f] == s.pcs[f]
  {
  }

  lemma OneStep(s: Register, step: Step, rest: seq<Step>, s': Register)
    requires Enabled(s, step) && Run(Apply(s, step), rest, s')
    ensures Run(s, [step] + rest, s')
  {
    assert ([step] + rest)[1..] == rest;
  }

  lemma {:induction false} RunsJoin(s: Register, a: seq<Step>, m: Register, b: seq<Step>, s': Register)
    requires Run(s, a, m) && Run(m, b, s')
    ensures Run(s, a + b, s')
    decreases |a|
  {
    if a == [] {
      assert a + b == b;
    } else {
      assert (a + b)[1..] == a[1..] + b && (a + b)[0] == a[0];
      RunsJoin(Apply(s, a[0]), a[1..], m, b, s');
    }
  }

  // Until the flag is stored, the environment that will store it is there.
  ghost predicate EarlyIsThere(s: Register) {
    !s.firstRegistered && s.pcs != map[] ==> s.early != {}
  }

  lemma {:induction false} EarlyStays(s: Register, steps: seq<Step>, s': Register)
    requires Inv(s) && EarlyIsThere(s) && Run(s, steps, s')
    ensures EarlyIsThere(s')
    decreases |steps|
  {
    if steps != [] {
      InvKept(s, steps[0]);
      EarlyStep(s, steps[0]);
      EarlyStays(Apply(s, steps[0]), steps[1..], s');
    }
  }

  lemma EarlyStep(s: Register, step: Step)
    requires Inv(s) && EarlyIsThere(s) && Enabled(s, step)
    ensures EarlyIsThere(Apply(s, step))
  {
    if step.Enter? && s.pcs == map[] {
      assert s.pcs.Keys == {} && !HookRan(s) && s.count == 0;
    }
  }

  // In every reachable state each environment that has entered and not left can still be
  // registered: if it has to wait, the one it waits for can go on.
  lemma EveryoneCanRegister(s0: Register, before: seq<Step>, s: Register, e: EnvId)
    returns (steps: seq<Step>, s': Register)
    requires IsInitial(s0) && Run(s0, before, s) && e in s.pcs && Present(s.pcs[e])
    ensures Run(s, steps, s') && Is(s', e, Live)
  {
    RunKeepsInv(s0, before, s);
    if s.pcs[e] != Waiting {
      steps, s' := GetsLive(s, e);
    } else {
      EarlyStays(s0, before, s);
      var first: seq<Step>, m := [], s;
      if !s.firstRegistered {
        var f :| f in s.early;
        first, m := GetsLive(s, f);
      }
      InvKept(m, PassWait(e));
      steps, s' := GetsLive(Apply(m, PassWait(e)), e);
      OneStep(m, PassWait(e), steps, s');
      RunsJoin(s, first, m, [PassWait(e)] + steps, s');
      steps := first + ([PassWait(e)] + steps);
    }
  }

  // The hook is added once per process: after its owner has left, no exit shuts the
  // runtime down, however often environments come and go.
  lemma NoSecondShutdown(s0: Register, before: seq<Step>, s: Register, after: seq<Step>, s': Register)
    requires IsInitial(s0) && Run(s0, before, s) && HookRan(s) && !WindowOpen(s)
    requires Run(s, after, s')
    ensures forall i | 0 <= i < |after| :: !after[i].ShutRt?
  {
    RunKeepsInv(s0, before, s);
    HookStaysSpent(s, after, s');
  }

  lemma SpentStep(s: Register, step: Step)
    requires Inv(s) && HookRan(s) && !WindowOpen(s) && Enabled(s, step)
    ensures !step.ShutRt? && HookRan(Apply(s, step)) && !WindowOpen(Apply(s, step))
  {
  }

  lemma {:induction false} HookStaysSpent(s: Register, steps: seq<Step>, s': Register)
    requires Inv(s) && HookRan(s) && !WindowOpen(s) && Run(s, steps, s')
    ensures forall i | 0 <= i < |steps| :: !steps[i].ShutRt?
    decreases |steps|
  {
    if steps != [] {
      InvKept(s, steps[0]);
      SpentStep(s, steps[0]);
      HookStaysSpent(Apply(s, steps[0]), steps[1..], s');
    }
  }

  // The environment is past `start_async_runtime` and finds no runtime.
  predicate LacksRuntime(s: Register, e: EnvId) {
    e in s.pcs && NeedsRuntime(s.pcs[e]) && !s.rt.slot.Running?
  }

  ghost predicate CanLoseRuntime(s: Register, e: EnvId) {
    exists steps, s' :: Run(s, steps, s') && LacksRuntime(s', e)
  }

  // While no window is open, a step leaves an environment that needs the runtime with it
  // and opens no window, or else takes the environment out for good.
  lemma ClosedStep(s: Register, step: Step, e: EnvId)
    requires Inv(s) && Enabled(s, step) && e in s.pcs
    requires !Present(s.pcs[e]) || (NeedsRuntime(s.pcs[e]) && s.rt.slot.Running? && !WindowOpen(s))
    ensures var s' := Apply(s, step);
      e in s'.pcs
      && (!Present(s'.pcs[e]) || (NeedsRuntime(s'.pcs[e]) && s'.rt.slot.Running? && !WindowOpen(s')))
  {
    if Present(s.pcs[e]) && WindowOpen(Apply(s, step)) {
      WindowFrom(s, step);
    }
  }

  lemma {:induction false} ClosedStaysClosed(s: Register, steps: seq<Step>, s': Register, e: EnvId)
    requires Inv(s) && e in s.pcs && Run(s, steps, s')
    requires !Present(s.pcs[e]) || (NeedsRuntime(s.pcs[e]) && s.rt.slot.Running? && !WindowOpen(s))
    ensures !LacksRuntime(s', e)
    decreases |steps|
  {
    if steps != [] {
      InvKept(s, steps[0]);
      ClosedStep(s, steps[0], e);
      ClosedStaysClosed(Apply(s, steps[0]), steps[1..], s', e);
    }
  }

  lemma ShutTakesRuntime(s: Register, e: EnvId)
    requires Inv(s) && e in s.pcs && NeedsRuntime(s.pcs[e]) && WindowOpen(s)
    ensures CanLoseRuntime(s, e)
  {
    var f :| f in s.pcs && s.pcs[f] == ShuttingDown;
    var s' := Apply(s, ShutRt(f));
    assert Run(s', [], s') && [ShutRt(f)][1..] == [];
    assert Run(s, [ShutRt(f)], s') && LacksRuntime(s', e);
  }

  // The exact condition: in every reachable state, an environment that needs the runtime
  // and has it can lose it if and only if some exit is between its last decrement and its
  // shutdown.
  lemma RuntimeLostExactly(s0: Register, steps0: seq<Step>, s: Register, e: EnvId)
    requires IsInitial(s0) && Run(s0, steps0, s)
    requires e in s.pcs && NeedsRuntime(s.pcs[e]) && s.rt.slot.Running?
    ensures CanLoseRuntime(s, e) <==> WindowOpen(s)
  {
    RunKeepsInv(s0, steps0, s);
    if WindowOpen(s) {
      ShutTakesRuntime(s, e);
    } else if CanLoseRuntime(s, e) {
      var steps, s' :| Run(s, steps, s') && LacksRuntime(s', e);
      ClosedStaysClosed(s, steps, s', e);
    }
  }

  // Left to themselves the decrement and the shutdown can be separated by a whole
  // registration: the new environment finds the runtime running, does not start one, and
  // then loses it.
  lemma ShutdownCanOvertakeRegistration() returns (s: Register, steps: seq<Step>, s': Register)
    ensures IsInitial(s) && Run(s, steps, s')
    ensures exists e :: e in s'.pcs && NeedsRuntime(s'.pcs[e]) && s'.rt.slot == Stopped
  {
    s, steps, s' := Overtaking(0), OvertakingSteps(0), Overtaking(11);
    OvertakingRuns(0);
    assert 1 in s'.pcs;
  }

  // The states of that run, and the step out of each.
  function Overtaking(i: nat): Register {
    var up := Started(Initial);
    match i
    case 0 => Register(map[], 0, false, 0, NoHook, Initial, {}, {})
    case 1 => Register(map[0 := Exporting], 1, false, 0, NoHook, Initial, {0}, {})
    case 2 => Register(map[0 := CreatingGc], 1, false, 0, NoHook, Initial, {0}, {})
    case 3 => Register(map[0 := StartingRt], 1, false, 1, NoHook, Initial, {0}, {})
    case 4 => Register(map[0 := AddingHook], 1, false, 1, NoHook, up, {0}, {})
    case 5 => Register(map[0 := StoringFirst], 1, false, 1, HookOf(0), up, {0}, {})
    case 6 => Register(map[0 := Live], 1, true, 1, HookOf(0), up, {0}, {})
    case 7 => Register(map[0 := ShuttingDown], 0, true, 1, HookOf(0), up, {0}, {})
    case 8 => Register(map[0 := ShuttingDown, 1 := Exporting], 1, true, 1, HookOf(0), up, {0}, {})
    case 9 => Register(map[0 := ShuttingDown, 1 := StartingRt], 1, true, 1, HookOf(0), up, {0}, {})
    case 10 => Register(map[0 := ShuttingDown, 1 := AddingHook], 1, true, 1, HookOf(0), up, {0}, {1})
    case _ => Register(map[0 := Gone, 1 := AddingHook], 1, true, 1, HookOf(0), ShutDown(up), {0}, {1})
  }

  function OvertakingStep(i: nat): Step {
    match i
    case 0 => Enter(0)
    case 1 => ReadFirst(0)
    case 2 => CreateGc(0)
    case 3 => StartRt(0)
    case 4 => AddHook(0)
    case 5 => StoreFirst(0)
    case 6 => Exit(0)
    case 7 => Enter(1)
    case 8 => ReadFirst(1)
    case 9 => StartRt(1)
    case _ => ShutRt(0)
  }

  function OvertakingSteps(i: nat): seq<Step>
    requires i <= 11
    decreases 11 - i
  {
    if i == 11 then [] else [OvertakingStep(i)] + OvertakingSteps(i + 1)
  }

  lemma OvertakingGoes(i: nat)
    requires i < 11
    ensures Enabled(Overtaking(i), OvertakingStep(i))
    ensures Apply(Overtaking(i), OvertakingStep(i)) == Overtaking(i + 1)
  {
    var s, next := Overtaking(i), Overtaking(i + 1);
    assert s.pcs[OvertakingStep(i).e := next.pcs[OvertakingStep(i).e]] == next.pcs;
    assert i == 9 ==> s.pcs[0] == ShuttingDown;
  }

  lemma {:induction false} OvertakingRuns(i: nat)
    requires i <= 11
    ensures Run(Overtaking(i), OvertakingSteps(i), Overtaking(11))
    decreases 11 - i
  {
    if i < 11 {
      OvertakingGoes(i);
      OvertakingRuns(i + 1);
      assert OvertakingSteps(i)[1..] == OvertakingSteps(i + 1);
    }
  }
}
