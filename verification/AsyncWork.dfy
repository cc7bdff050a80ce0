/**
 A task on the engine's thread pool: queued on the JS thread, executed on a worker,
 completed on the JS thread, and cancelled from the JS thread at any moment, through its
 promise or through an abort signal.
 */
module AsyncWork {
  import opened Wrappers

  // The shared status cell: 0, 1 and 2 of the source.
  datatype Status = NotStarted | Completed | Canceled

  // Where the engine is with the work.
  datatype Stage = Queued | Executing | Executed | CancelledByEngine | Done

  datatype Reason = AbortError | TaskError

  datatype Settlement = Resolved | Rejected(reason: Reason)

  // The task's own part in its completion, given what `compute` returned.
  datatype Callback = CallsResolve | CallsReject

  datatype State = State(
    status: Status,
    stage: Stage,
    value: Option<bool>,        // the result slot: `compute` returned `Ok` or not, once written
    handles: bool,              // the box still holds the work and the deferred
    settlements: seq<Settlement>,
    calls: seq<Callback>,       // of the task
    finallys: nat,
    deletes: nat,
    asked: bool,                // a cancel came before completion
    stale: bool                 // the engine was asked to cancel a deleted work
  )

  // What a completion learns from the engine and from the task.
  datatype Env = Env(
    failed: bool,       // the engine completes executed work with an error status
    abortBuilt: bool,   // the AbortError could be created and named
    selfCancels: bool,  // the task's own `resolve`/`reject` cancels it
    taskOk: bool,       // `resolve`/`reject` returned `Ok`
    converts: bool,     // that value converts to JS
    settleOk: bool,     // the engine accepts the settlement
    finallyOk: bool,
    deleteOk: bool
  )

  function CallbackFor(value: Option<bool>): Callback {
    if value == Some(true) then CallsResolve else CallsReject
  }

  predicate Aborts(s: State) {
    s.stage == CancelledByEngine || s.status == Canceled
  }

  // The settlement a completion asks the engine for, if it comes to that.
  function Settling(s: State, env: Env): Option<Settlement> {
    if Aborts(s) then
      if env.abortBuilt then Some(Rejected(AbortError)) else None
    else if env.selfCancels then None
    else if !env.failed && env.taskOk && env.converts then Some(Resolved)
    else Some(Rejected(TaskError))
  }

  predicate ReachesFinally(s: State, env: Env) {
    match Settling(s, env)
    case Some(_) => env.settleOk
    case None => !Aborts(s)
  }

  function Complete(s: State, env: Env): State {
    var reaches := ReachesFinally(s, env);
    s.(stage := Done,
       handles := false,
       status := if !Aborts(s) && reaches then Completed else s.status,
       settlements := s.settlements + if env.settleOk && Settling(s, env).Some? then [Settling(s, env).value] else [],
       calls := s.calls + if Aborts(s) then [] else [CallbackFor(s.value)],
       finallys := s.finallys + if reaches then 1 else 0,
       deletes := s.deletes + if reaches && env.finallyOk then 1 else 0)
  }

  // A cancellation: the status first, then, if `reached`, the engine, which can still
  // withdraw work it has not started.
  function Cancelled(s: State, reached: bool): State {
    s.(status := Canceled,
       stage := if reached && s.stage == Queued then CancelledByEngine else s.stage,
       asked := s.asked || s.stage != Done,
       stale := s.stale || (reached && s.deletes > 0))
  }

  // The handler of the abort signal: nothing once the task has completed. It reaches the
  // engine on platforms where cancelling is compiled in, once the work was put in the cell.
  function Abort(s: State, reached: bool): State {
    if s.status == Completed then s else Cancelled(s, reached)
  }

  class Work {
    var status: Status
    var stage: Stage
    var value: Option<bool>
    var handles: bool
    var settlements: seq<Settlement>
    var calls: seq<Callback>
    var finallys: nat
    var deletes: nat
    ghost var asked: bool
    ghost var stale: bool

    // `run`, with a fresh status cell or the one of a signal that may have fired already.
    constructor (aborted: bool)
      ensures View() == Start(aborted)
    {
      status := if aborted then Canceled else NotStarted;
      stage, value, handles := Queued, None, true;
      settlements, calls, finallys, deletes := [], [], 0, 0;
      asked, stale := aborted, false;
    }

    ghost function View(): State
      reads this
    {
      State(status, stage, value, handles, settlements, calls, finallys, deletes, asked, stale)
    }

    // The worker's part: `compute` has returned; its result goes into the slot.
    method FinishExecute(computed: bool)
      requires stage == Executing
      modifies this
      ensures View() == old(View()).(value := Some(computed), stage := Executed)
    {
      value := Some(computed);
      stage := Executed;
    }

    // `AsyncWorkPromise::cancel`
    method CancelWork()
      modifies this
      ensures View() == Cancelled(old(View()), true)
    {
      status := Canceled;
      AskEngine();
    }

    // `napi_cancel_async_work`
    method AskEngine()
      requires status == Canceled
      modifies this
      ensures View() == Cancelled(old(View()), true)
    {
      asked, stale := asked || stage != Done, stale || deletes > 0;
      if stage == Queued {
        stage := CancelledByEngine;
      }
    }

    // One round of `on_abort_impl`; `done` where it returns for good.
    method OnAbort(reached: bool) returns (done: bool)
      modifies this
      ensures View() == Abort(old(View()), reached)
      ensures done == (old(status) == Completed)
    {
      if status == Completed {
        return true;
      }
      status := Canceled;
      asked := asked || stage != Done;
      if reached {
        AskEngine();
      }
      return false;
    }

    // The middle of `complete_impl`: the task's own `resolve` or `reject`, and the settlement
    // with what it gave unless it cancelled the task.
    method CallTask(env: Env) returns (ok: bool)
      requires value.Some? && status != Canceled
      modifies this`calls, this`status, this`settlements
      ensures calls == old(calls) + [if value.value then CallsResolve else CallsReject]
      ensures status == if env.selfCancels then Canceled else old(status)
      ensures ok == (env.selfCancels || env.settleOk)
      ensures settlements == old(settlements) +
        if env.selfCancels || !env.settleOk then []
        else if !env.failed && env.taskOk && env.converts then [Resolved]
        else [Rejected(TaskError)]
    {
      // `assume_init`: the slot must have been written
      calls := calls + [if value.value then CallsResolve else CallsReject];
      assert settlements + [] == settlements;
      if env.selfCancels {
        status := Canceled;
      }
      if status != Canceled {
        if !env.settleOk {
          return false;
        }
        settlements := settlements +
          [if !env.failed && env.taskOk && env.converts then Resolved else Rejected(TaskError)];
      }
      ok := true;
    }

    // `complete_impl`; `ok` is false where it returns early with an error.
    method CompleteImpl(env: Env) returns (ok: bool)
      requires handles && (stage == CancelledByEngine || (stage == Executed && value.Some?))
      modifies this
      ensures View() == Complete(old(View()), env)
      ensures ok == (ReachesFinally(old(View()), env) && env.finallyOk && env.deleteOk)
    {
      handles := false;
      assert settlements + [] == settlements && calls + [] == calls;
      var cancelled := stage == CancelledByEngine;
      stage := Done;
      if cancelled || status == Canceled {
        if !env.abortBuilt || !env.settleOk {
          return false;
        }
        settlements := settlements + [Rejected(AbortError)];
      } else {
        var settled := CallTask(env);
        if !settled {
          return false;
        }
        status := Completed;
      }
      finallys := finallys + 1;
      if !env.finallyOk {
        return false;
      }
      deletes := deletes + 1;
      return env.deleteOk;
    }
  }

  predicate AllApart(stack: seq<Work>) {
    forall i, j | 0 <= i < j < |stack| :: stack[i] != stack[j]
  }

  // `on_abort_impl` for a signal that was given to several tasks: those before the first
  // completed one are cancelled, and neither that one nor any after it.
  method OnAbortAll(stack: seq<Work>, reached: seq<bool>)
    requires AllApart(stack) && |reached| == |stack|
    modifies set w | w in stack
    ensures forall i | 0 <= i < |stack| ::
      stack[i].View() ==
        if forall j | 0 <= j <= i :: old(stack[j].status) != Completed then Abort(old(stack[i].View()), reached[i])
        else old(stack[i].View())
  {
    for k := 0 to |stack|
      invariant forall i | 0 <= i < k :: old(stack[i].status) != Completed
      invariant forall i | 0 <= i < k :: stack[i].View() == Abort(old(stack[i].View()), reached[i])
      invariant forall i | k <= i < |stack| :: stack[i].View() == old(stack[i].View())
    {
      assert stack[k].View() == old(stack[k].View());
      var done := stack[k].OnAbort(reached[k]);
      if done {
        return;
      }
    }
  }

  // ----- every schedule

  datatype Step =
    | StartExecute
    | FinishExecute(computed: bool)
    | CancelWork
    | OnAbort(reached: bool)
    | CompleteWork(env: Env)

  function Start(aborted: bool): State {
    State(if aborted then Canceled else NotStarted, Queued, None, true, [], [], 0, 0, aborted, false)
  }

  predicate Enabled(s: State, step: Step) {
    match step
    case StartExecute => s.stage == Queued
    case FinishExecute(_) => s.stage == Executing
    case CancelWork => true
    case OnAbort(_) => true
    // the engine completes work once it was executed or withdrawn
    case CompleteWork(_) => s.stage == Executed || s.stage == CancelledByEngine
  }

  function Apply(s: State, step: Step): State
    requires Enabled(s, step)
  {
    match step
    case StartExecute => s.(stage := Executing)
    case FinishExecute(computed) => s.(value := Some(computed), stage := Executed)
    case CancelWork => Cancelled(s, true)
    case OnAbort(reached) => Abort(s, reached)
    case CompleteWork(env) => Complete(s, env)
  }

  ghost predicate Run(s: State, steps: seq<Step>, s': State)
    decreases |steps|
  {
    if steps == [] then s == s'
    else Enabled(s, steps[0]) && Run(Apply(s, steps[0]), steps[1..], s')
  }

  // Before completion nothing is settled, the handles are in place, the slot is written
  // exactly when execution finished, and the status is 2 exactly when a cancel was asked.
  predicate Pending(s: State) {
    && s.stage != Done && s.handles
    && s.settlements == [] && s.calls == [] && s.finallys == s.deletes == 0
    && (s.value.Some? <==> s.stage == Executed)
    && s.status != Completed && (s.status == Canceled <==> s.asked)
    && (s.stage == CancelledByEngine ==> s.asked)
    && !s.stale
  }

  // What one completion leaves, whatever is cancelled afterwards.
  predicate Finished(s: State, env: Env) {
    && s.stage == Done && !s.handles
    && |s.settlements| == (if env.settleOk && (if s.asked then env.abortBuilt else !env.selfCancels) then 1 else 0)
    && (s.settlements != [] ==> (s.settlements[0] == Rejected(AbortError) <==> s.asked))
    && (s.settlements == [Resolved] <==>
          !s.asked && env.settleOk && !env.selfCancels && !env.failed && env.taskOk && env.converts)
    && (s.asked ==> s.calls == [])
    && (!s.asked ==> s.value.Some? && s.calls == [if s.value.value then CallsResolve else CallsReject])
    && s.finallys == (if (if s.asked then env.abortBuilt && env.settleOk else env.settleOk || env.selfCancels) then 1 else 0)
    && s.deletes == (if env.finallyOk then s.finallys else 0)
  }

  ghost predicate Inv(s: State) {
    Pending(s) || exists env :: Finished(s, env)
  }

  lemma {:induction false} RunKeepsInv(s: State, steps: seq<Step>, s': State)
    requires Inv(s) && Run(s, steps, s')
    ensures Inv(s')
    decreases |steps|
  {
    if steps != [] {
      var next := Apply(s, steps[0]);
      if !Pending(s) {
        var env :| Finished(s, env);
        assert Finished(next, env);
      } else if steps[0].CompleteWork? {
        assert Finished(next, steps[0].env);
      }
      RunKeepsInv(next, steps[1..], s');
    }
  }

  // The slot is read only after it was written: whenever work can complete and is not to
  // be aborted, its result is there.
  lemma ReadAfterWrite(aborted: bool, steps: seq<Step>, s: State, env: Env)
    requires Run(Start(aborted), steps, s) && Enabled(s, CompleteWork(env))
    ensures s.handles && (s.stage == Executed ==> s.value.Some?) && (!Aborts(s) ==> s.value.Some?)
  {
    RunKeepsInv(Start(aborted), steps, s);
  }

  // Whatever follows a completion, its answers fix the end: the promise is settled at most
  // once, and exactly once if and only if the engine takes the settlement and, for a
  // cancelled task, the AbortError can be built, for any other, the task does not cancel
  // itself; a cancel before completion, and nothing else, yields the AbortError.
  lemma EveryCompletion(aborted: bool, before: seq<Step>, s: State, env: Env, after: seq<Step>, s': State)
    requires Run(Start(aborted), before, s) && Enabled(s, CompleteWork(env))
    requires Run(Complete(s, env), after, s')
    ensures Finished(s', env) && s'.asked == s.asked
  {
    RunKeepsInv(Start(aborted), before, s);
    FinishedStays(Complete(s, env), env, after, s');
  }

  lemma {:induction false} FinishedStays(s: State, env: Env, steps: seq<Step>, s': State)
    requires Finished(s, env) && Run(s, steps, s')
    ensures Finished(s', env) && s'.asked == s.asked
    decreases |steps|
  {
    if steps != [] {
      FinishedStays(Apply(s, steps[0]), env, steps[1..], s');
    }
  }

  // A task was asked to stop if and only if its signal had fired before it started, or a
  // cancel or an abort came before its completion.
  lemma AskedExactly(aborted: bool, before: seq<Step>, s: State)
    requires Run(Start(aborted), before, s) && s.stage != Done
    ensures s.asked <==> aborted || CancelWork in before || OnAbort(true) in before || OnAbort(false) in before
  {
    AskedFrom(Start(aborted), before, s);
  }

  lemma {:induction false} AskedFrom(s: State, steps: seq<Step>, s': State)
    requires Pending(s) && Run(s, steps, s') && s'.stage != Done
    ensures s'.asked <==> s.asked || CancelWork in steps || OnAbort(true) in steps || OnAbort(false) in steps
    decreases |steps|
  {
    if steps != [] {
      assert forall step: Step :: step in steps <==> step == steps[0] || step in steps[1..];
      if steps[0].CompleteWork? {
        DoneForGood(Apply(s, steps[0]), steps[1..], s');
      } else {
        AskedFrom(Apply(s, steps[0]), steps[1..], s');
      }
    }
  }

  lemma {:induction false} DoneForGood(s: State, steps: seq<Step>, s': State)
    requires s.stage == Done && Run(s, steps, s')
    ensures s'.stage == Done
    decreases |steps|
  {
    if steps != [] {
      DoneForGood(Apply(s, steps[0]), steps[1..], s');
    }
  }

  // Work that is still queued when a cancellation reaches the engine is never executed: in
  // no run does a worker take it up, its slot stays unwritten and its task uncalled.
  lemma WithdrawnNeverExecutes(aborted: bool, before: seq<Step>, s: State, step: Step, after: seq<Step>, s': State)
    requires Run(Start(aborted), before, s) && s.stage == Queued
    requires step == CancelWork || step == OnAbort(true)
    requires Run(Apply(s, step), after, s')
    ensures StartExecute !in after && s'.value == None && s'.calls == []
  {
    RunKeepsInv(Start(aborted), before, s);
    WithdrawnStays(Apply(s, step), after, s');
  }

  lemma {:induction false} WithdrawnStays(s: State, steps: seq<Step>, s': State)
    requires (s.stage == CancelledByEngine || s.stage == Done) && s.value == None && s.calls == [] && Run(s, steps, s')
    ensures StartExecute !in steps && s'.value == None && s'.calls == []
    decreases |steps|
  {
    if steps != [] {
      assert forall step: Step :: step in steps <==> step == steps[0] || step in steps[1..];
      WithdrawnStays(Apply(s, steps[0]), steps[1..], s');
    }
  }

  // Whatever was cancelled so far, work that is not done can still be completed.
  lemma CanComplete(aborted: bool, before: seq<Step>, s: State, computed: bool, env: Env)
    requires Run(Start(aborted), before, s) && s.stage != Done
    ensures exists steps, s' :: Run(s, steps, s') && Enabled(s', CompleteWork(env))
  {
    var ready := match s.stage
      case Queued => Apply(Apply(s, StartExecute), FinishExecute(computed))
      case Executing => Apply(s, FinishExecute(computed))
      case _ => s;
    var steps := match s.stage
      case Queued => [StartExecute, FinishExecute(computed)]
      case Executing => [FinishExecute(computed)]
      case _ => [];
    assert [FinishExecute(computed)][1..] == [];
    assert [StartExecute, FinishExecute(computed)][1..] == [FinishExecute(computed)];
    assert Run(ready, [], ready);
    assert s.stage == Queued ==> Run(Apply(s, StartExecute), [FinishExecute(computed)], ready);
    assert Run(s, steps, ready) && Enabled(ready, CompleteWork(env));
  }

  // With engine and task succeeding, and a task that leaves its own status alone: one
  // settlement, one `finally`, one delete, and the AbortError exactly for a cancel that
  // came in time.
  lemma GoodCompletion(aborted: bool, before: seq<Step>, s: State, env: Env, after: seq<Step>, s': State)
    requires Run(Start(aborted), before, s) && Enabled(s, CompleteWork(env))
    requires Run(Complete(s, env), after, s')
    requires env.abortBuilt && env.settleOk && env.finallyOk && !env.selfCancels
    ensures |s'.settlements| == 1 && s'.finallys == 1 && s'.deletes == 1
    ensures s'.settlements[0] == Rejected(AbortError) <==> s.asked
  {
    EveryCompletion(aborted, before, s, env, after, s');
  }

  // A task that cancels itself in `resolve` is finished and deleted with its promise
  // pending for good.
  lemma SelfCancelLeavesPending(aborted: bool, before: seq<Step>, s: State, env: Env, after: seq<Step>, s': State)
    requires Run(Start(aborted), before, s) && Enabled(s, CompleteWork(env)) && !s.asked && env.selfCancels
    requires Run(Complete(s, env), after, s')
    ensures s'.settlements == [] && s'.finallys == 1
  {
    EveryCompletion(aborted, before, s, env, after, s');
  }

  lemma {:induction false} StaleFrom(s: State, steps: seq<Step>, s': State)
    requires s.stage == Done && (s.deletes > 0 ==> s.status == Completed || s.status == Canceled)
    requires Run(s, steps, s')
    ensures s'.stale
      <==> s.stale
           || (s.deletes > 0 && (CancelWork in steps || (s.status == Canceled && OnAbort(true) in steps)))
    decreases |steps|
  {
    if steps != [] {
      assert forall step: Step :: step in steps <==> step == steps[0] || step in steps[1..];
      StaleFrom(Apply(s, steps[0]), steps[1..], s');
    }
  }

  // When the engine is asked to cancel a deleted work, over every run past the completion:
  // a late `cancel` always asks it, and an abort of a task that was cancelled in time does.
  // The status of a task that completed on its own holds aborts back until a late `cancel`
  // overwrites it.
  lemma StaleExactly(aborted: bool, before: seq<Step>, s: State, env: Env, after: seq<Step>, s': State)
    requires Run(Start(aborted), before, s) && Enabled(s, CompleteWork(env))
    requires Run(Complete(s, env), after, s')
    ensures s'.stale
      <==> Complete(s, env).deletes == 1 && (CancelWork in after || (s.asked && OnAbort(true) in after))
  {
    RunKeepsInv(Start(aborted), before, s);
    StaleFrom(Complete(s, env), after, s');
  }

  // The shortest such run of a task that nobody cancelled in time.
  lemma LateCancelIsStale(aborted: bool, before: seq<Step>, s: State, env: Env)
    requires Run(Start(aborted), before, s) && Enabled(s, CompleteWork(env))
    requires !s.asked && Complete(s, env).deletes == 1
    ensures var c := Complete(s, env);
      Run(c, [CancelWork], Cancelled(c, true)) && Cancelled(c, true).stale
  {
    var c := Complete(s, env);
    assert Run(Apply(c, CancelWork), [], Cancelled(c, true));
    assert [CancelWork][1..] == [];
  }
}
