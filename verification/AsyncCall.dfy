/**
 An async `#[napi]` function: the references that keep its JS arguments alive, the tokio
 task that runs it, the task that watches it for panics, and the settlement of its promise
 on the JS thread.
 */
module AsyncCall {
  import opened NapiRefs
  import opened Sequences
  import opened Wrappers

  // ----- the generated reference array

  // One generated `make_ref`: the value it looks at may be a null pointer, and the
  // engine may refuse to make the reference.
  datatype Input = NullPtr | Ptr(v: Value, refMade: bool)

  predicate Referable(input: Input) {
    input.Ptr? && input.refMade
  }

  predicate AllReferable(inputs: seq<Input>) {
    forall i | 0 <= i < |inputs| :: Referable(inputs[i])
  }

  // `counts` with `n` new references of count one, the first being `first`.
  function WithNew(counts: map<Ref, nat>, first: Ref, n: nat): map<Ref, nat> {
    if n == 0 then counts else WithNew(counts, first, n - 1)[first + n - 1 := 1]
  }

  // The statements generated from the list of references: every slot of the array is
  // written once, in order and in bounds, or the whole call fails at the first bad input,
  // leaving the references made before it in the engine.
  method BuildArgsArray(engine: Engine, inputs: seq<Input>) returns (slots: Option<seq<Ref>>)
    requires engine.Valid()
    modifies engine
    ensures engine.Valid()
    ensures slots.Some? <==> forall i | 0 <= i < |inputs| :: inputs[i].Ptr? && inputs[i].refMade
    ensures slots.Some? ==>
      && |slots.value| == |inputs|
      && (forall i | 0 <= i < |inputs| :: slots.value[i] == old(engine.next) + i)
      && engine.counts == WithNew(old(engine.counts), old(engine.next), |inputs|)
    ensures slots.None? ==> exists k :: (0 <= k < |inputs| && AllReferable(inputs[..k]) && !Referable(inputs[k])
      && engine.counts == WithNew(old(engine.counts), old(engine.next), k))
  {
    var args := new Option<Ref>[|inputs|](_ => None);
    var index := 0;
    ghost var first := engine.next;
    while index < |inputs|
      invariant 0 <= index <= |inputs|
      invariant engine.Valid() && engine.next == first + index
      invariant AllReferable(inputs[..index])
      invariant engine.counts == WithNew(old(engine.counts), first, index)
      invariant forall i | 0 <= i < index :: args[i] == Some(first + i)
      invariant forall i | index <= i < |inputs| :: args[i] == None
    {
      if !Referable(inputs[index]) {
        assert !(inputs[index].Ptr? && inputs[index].refMade);
        return None;
      }
      var r := engine.CreateReference(inputs[index].v, 1);
      assert args[index] == None;
      args[index] := Some(r);
      index := index + 1;
    }
    assert inputs[..index] == inputs;
    slots := Some(seq(|inputs|, i requires 0 <= i < |inputs| && args[i].Some? reads args => args[i].value));
  }

  // How many references are made before the first bad input.
  function Made(inputs: seq<Input>): (n: nat)
    ensures n <= |inputs|
    ensures AllReferable(inputs[..n]) && (n < |inputs| ==> !Referable(inputs[n]))
  {
    if inputs == [] || !Referable(inputs[0]) then 0
    else
      assert inputs[1..][..Made(inputs[1..])] == inputs[1..1 + Made(inputs[1..])];
      1 + Made(inputs[1..])
  }

  // The generated body up to the executor: first the references, then the conversions of
  // the arguments, then the deferred. The array has no `Drop`, so a call that fails on the
  // way leaves every reference made so far in the engine: it leaks some if and only if it
  // fails after the first of them was made.
  method StartCall(engine: Engine, inputs: seq<Input>, converted: bool, deferredMade: bool)
    returns (handed: Option<seq<Ref>>)
    requires engine.Valid()
    modifies engine
    ensures engine.Valid()
    ensures handed.Some? <==>
      (forall i | 0 <= i < |inputs| :: inputs[i].Ptr? && inputs[i].refMade) && converted && deferredMade
    ensures handed.Some? ==> handed.value == Slots(old(engine.next), |inputs|)
    ensures engine.counts == WithNew(old(engine.counts), old(engine.next), Made(inputs))
    ensures handed.None? ==> (engine.counts != old(engine.counts) <==> Made(inputs) > 0)
  {
    var slots := BuildArgsArray(engine, inputs);
    MadeIsUnique(inputs);
    NewRefsAreHeldOnce(old(engine.counts), old(engine.next), Made(inputs));
    if Made(inputs) > 0 {
      assert old(engine.next) in engine.counts && old(engine.next) !in old(engine.counts);
    }
    if slots.None? || !converted || !deferredMade {
      return None;
    }
    assert slots.value == Slots(old(engine.next), |inputs|);
    return slots;
  }

  lemma MadeIsUnique(inputs: seq<Input>)
    ensures AllReferable(inputs) <==> Made(inputs) == |inputs|
    ensures forall k | 0 <= k < |inputs| && AllReferable(inputs[..k]) && !Referable(inputs[k]) :: k == Made(inputs)
  {
    var n := Made(inputs);
    forall i | 0 <= i < n
      ensures Referable(inputs[i])
    {
      assert inputs[..n][i] == inputs[i];
    }
    forall k | 0 <= k < |inputs| && AllReferable(inputs[..k]) && !Referable(inputs[k])
      ensures k == n
    {
      assert forall i | 0 <= i < k :: inputs[..k][i] == inputs[i];
    }
  }

  predicate HeldOnce(counts: map<Ref, nat>, refs: seq<Ref>) {
    forall r | r in refs :: r in counts && counts[r] == 1
  }

  // The generated `NapiRefContainer::drop`: each reference goes from one to zero and is
  // deleted, and no other is touched.
  method DropContainer(engine: Engine, refs: seq<Ref>)
    requires engine.Valid() && Distinct(refs) && HeldOnce(engine.counts, refs)
    modifies engine`counts
    ensures engine.Valid()
    ensures engine.counts == old(engine.counts) - Elements(refs)
  {
    var i := 0;
    while i < |refs|
      invariant 0 <= i <= |refs|
      invariant engine.Valid()
      invariant engine.counts == old(engine.counts) - Elements(refs[..i])
    {
      assert refs[i] in refs && refs[i] !in refs[..i];
      var left := engine.Unreference(refs[i]);
      assert left == 0;
      engine.DeleteReference(refs[i]);
      assert refs[..i + 1] == refs[..i] + [refs[i]];
      i := i + 1;
    }
    assert refs[..i] == refs;
  }

  function Slots(first: Ref, n: nat): seq<Ref> {
    seq(n, i => first + i)
  }

  // What the array builder leaves is what the container's drop expects, and the two
  // together leave the engine as they found it.
  lemma {:induction false} NewRefsAreHeldOnce(counts: map<Ref, nat>, first: Ref, n: nat)
    requires forall r | r in counts :: r < first
    ensures Distinct(Slots(first, n)) && HeldOnce(WithNew(counts, first, n), Slots(first, n))
    ensures WithNew(counts, first, n) - Elements(Slots(first, n)) == counts
    ensures forall r :: r in WithNew(counts, first, n) <==> r in counts || first <= r < first + n
  {
    if n > 0 {
      NewRefsAreHeldOnce(counts, first, n - 1);
      var slots := Slots(first, n);
      assert forall i | 0 <= i < n :: slots[i] == first + i;
      assert slots == Slots(first, n - 1) + [first + n - 1];
      forall r: Ref | first <= r < first + n ensures r in slots {
        assert slots[r - first] == r;
      }
    } else {
      assert Elements(Slots(first, 0)) == {};
    }
  }

  // ----- settlement on the JS thread

  // What the message carries: a resolver, or an error.
  datatype Msg = ResolveWith | RejectWith

  // The answers one dispatch of `napi_resolve_deferred` gets.
  datatype Env = Env(resolverOk: bool, convertOk: bool, releaseOk: bool, resolveOk: bool, rejectOk: bool)

  datatype Act = RunResolver | Release | Resolve(done: bool) | Reject(done: bool) | Finalize

  predicate Resolves(msg: Msg, env: Env) {
    msg.ResolveWith? && env.resolverOk && env.convertOk && env.releaseOk
  }

  predicate Resolved(msg: Msg, env: Env) {
    Resolves(msg, env) && env.resolveOk
  }

  // The acts of one dispatch, in order.
  function ActsOf(msg: Msg, env: Env, finalizes: bool): seq<Act> {
    (if msg.ResolveWith? then [RunResolver] else [])
    + [Release] + Ending(msg, env)
    + (if finalizes then [Finalize] else [])
  }

  function Ending(msg: Msg, env: Env): seq<Act> {
    (if Resolves(msg, env) then [Resolve(env.resolveOk)] else [])
    + (if Resolved(msg, env) then [] else [Reject(env.rejectOk)])
  }

  // The promise, its threadsafe function, and the finalize slot the deferred and its
  // clone share; the slot holds the references of the call.
  class Deferred {
    const engine: Engine
    var slot: Option<seq<Ref>>
    var log: seq<Act>

    constructor (engine: Engine, slot: Option<seq<Ref>>)
      ensures this.engine == engine && this.slot == slot && log == []
    {
      this.engine, this.slot, this.log := engine, slot, [];
    }

    ghost predicate Valid()
      reads this, engine
    {
      engine.Valid() && (slot.Some? ==> Distinct(slot.value) && HeldOnce(engine.counts, slot.value))
    }

    // `napi_resolve_deferred`, without `deferred_trace`.
    method Settle(msg: Msg, env: Env)
      requires Valid()
      modifies this, engine`counts
      ensures Valid() && slot == None
      ensures log == old(log) + ActsOf(msg, env, old(slot).Some?)
      ensures AnsweredWell(log[|old(log)|..], msg == ResolveWith, env)
      ensures engine.counts == old(engine.counts) - (if old(slot).Some? then Elements(old(slot).value) else {})
    {
      var finalize := slot;
      slot := None;
      var ok := msg.ResolveWith?;
      if ok {
        log := log + [RunResolver];
        ok := env.resolverOk;
      }
      ok := ok && env.convertOk;
      log := log + [Release];
      ok := env.releaseOk && ok;
      if ok {
        log := log + [Resolve(env.resolveOk)];
        ok := env.resolveOk;
      }
      if !ok {
        log := log + [Reject(env.rejectOk)];
      }
      if finalize.Some? {
        DropContainer(engine, finalize.value);
        log := log + [Finalize];
      }
      ActsAnswer(msg, env, finalize.Some?);
      assert log[|old(log)|..] == ActsOf(msg, env, finalize.Some?);
    }
  }

  // ----- the tasks

  datatype Task = Running | Sent | Panicked | Cancelled

  datatype Watcher = Awaiting | WatcherDone

  datatype State = State(
    task: Task,
    watcher: Watcher,
    queue: seq<Msg>,          // messages on the threadsafe function of the deferred
    sent: nat,                // messages ever queued
    slot: Option<seq<Ref>>,
    counts: map<Ref, nat>,
    log: seq<Act>
  )

  datatype Step =
    | TaskSends(msg: Msg)  // the future finished; `resolve` or `reject`
    | TaskPanics
    | TaskIsCancelled      // the runtime was shut down
    | WatcherWakes         // `jh.await` returned
    | WatcherIsCancelled
    | Dispatches(env: Env) // the JS thread takes the next message

  predicate Enabled(s: State, step: Step) {
    match step
    case TaskSends(_) => s.task == Running
    case TaskPanics => s.task == Running
    case TaskIsCancelled => s.task == Running
    case WatcherWakes => s.watcher == Awaiting && s.task != Running
    case WatcherIsCancelled => s.watcher == Awaiting
    case Dispatches(_) => s.queue != []
  }

  function Apply(s: State, step: Step): State
    requires Enabled(s, step)
  {
    match step
    case TaskSends(msg) => s.(task := Sent, queue := s.queue + [msg], sent := s.sent + 1)
    case TaskPanics => s.(task := Panicked)
    case TaskIsCancelled => s.(task := Cancelled)
    case WatcherWakes =>
      if s.task == Panicked then
        s.(watcher := WatcherDone, queue := s.queue + [RejectWith], sent := s.sent + 1)
      else
        s.(watcher := WatcherDone)
    case WatcherIsCancelled => s.(watcher := WatcherDone)
    case Dispatches(env) =>
      s.(queue := s.queue[1..],
         slot := None,
         counts := s.counts - (if s.slot.Some? then Elements(s.slot.value) else {}),
         log := s.log + ActsOf(s.queue[0], env, s.slot.Some?))
  }

  predicate Started(s: State) {
    && s.task == Running && s.watcher == Awaiting && s.queue == [] && s.sent == 0 && s.log == []
    && (s.slot.Some? ==> Distinct(s.slot.value) && HeldOnce(s.counts, s.slot.value))
  }

  ghost predicate Run(s: State, steps: seq<Step>, s': State)
    decreases |steps|
  {
    if steps == [] then s == s'
    else Enabled(s, steps[0]) && Run(Apply(s, steps[0]), steps[1..], s')
  }

  // Only the task's own send, or the watcher's after a panic, ever queues a message.
  predicate MayStillSend(s: State) {
    s.task == Running || (s.task == Panicked && s.watcher == Awaiting)
  }

  // The settlement of `start` as far as `s` has got: nothing yet, a message queued, or
  // that one message processed.
  ghost predicate Progress(start: State, s: State) {
    && (MayStillSend(s) ==> s.sent == 0)
    && (s.sent == 0 ==> s.queue == [])
    && s.sent <= 1
    && if s.sent == 1 && s.queue == [] then
         Settled(start, s)
       else
         |s.queue| == s.sent && s.slot == start.slot && s.counts == start.counts && s.log == []
  }

  ghost predicate Settled(start: State, s: State) {
    && s.slot == None
    && s.counts == start.counts - (if start.slot.Some? then Elements(start.slot.value) else {})
    && exists msg, env :: s.log == ActsOf(msg, env, start.slot.Some?)
  }

  lemma {:induction false} RunProgresses(start: State, s: State, steps: seq<Step>, s': State)
    requires Progress(start, s) && Run(s, steps, s')
    ensures Progress(start, s')
    decreases |steps|
  {
    if steps != [] {
      var next := Apply(s, steps[0]);
      assert steps[0].Dispatches? ==> next.log == ActsOf(s.queue[0], steps[0].env, start.slot.Some?);
      RunProgresses(start, next, steps[1..], s');
    }
  }

  function Count(log: seq<Act>, act: Act): nat {
    if log == [] then 0 else (if log[0] == act then 1 else 0) + Count(log[1..], act)
  }

  // Over every interleaving at most one message is queued. Until it is processed nothing
  // was settled or released and the references stand; afterwards the function was
  // released once, the promise settled once unless the engine refused both settlements,
  // the finalize callback ran once if there was one, last, and exactly its references are
  // gone.
  lemma EverySettlement(start: State, steps: seq<Step>, s: State)
    requires Started(start) && Run(start, steps, s)
    ensures s.sent <= 1 && |s.queue| <= s.sent
    ensures s.sent == 0 || s.queue != [] ==> s.log == [] && s.slot == start.slot && s.counts == start.counts
    ensures s.sent == 1 && s.queue == [] ==>
      && Count(s.log, Release) == 1
      && Count(s.log, Resolve(true)) + Count(s.log, Reject(true)) <= 1
      && Count(s.log, Resolve(true)) + Count(s.log, Reject(true)) + Count(s.log, Reject(false)) == 1
      && Count(s.log, Finalize) == (if start.slot.Some? then 1 else 0)
      && (start.slot.Some? ==> s.log[|s.log| - 1] == Finalize)
      && s.counts == start.counts - (if start.slot.Some? then Elements(start.slot.value) else {})
  {
    RunProgresses(start, start, steps, s);
    if s.sent == 1 && s.queue == [] {
      var msg, env :| s.log == ActsOf(msg, env, start.slot.Some?);
      CountsOfActs(msg, env, start.slot.Some?);
    }
  }

  lemma CountsOfActs(msg: Msg, env: Env, finalizes: bool)
    ensures var log := ActsOf(msg, env, finalizes);
      && Count(log, Release) == 1
      && Count(log, Resolve(true)) + Count(log, Reject(true)) <= 1
      && Count(log, Resolve(true)) + Count(log, Reject(true)) + Count(log, Reject(false)) == 1
      && Count(log, Finalize) == (if finalizes then 1 else 0)
  {
    CountsOfEnding(msg, env);
    CountInActs(msg, env, finalizes, Release);
    CountInActs(msg, env, finalizes, Resolve(true));
    CountInActs(msg, env, finalizes, Reject(true));
    CountInActs(msg, env, finalizes, Reject(false));
    CountInActs(msg, env, finalizes, Finalize);
  }

  lemma CountInActs(msg: Msg, env: Env, finalizes: bool, act: Act)
    requires act != RunResolver
    ensures Count(ActsOf(msg, env, finalizes), act) == Count(Ending(msg, env), act)
      + (if act == Release then 1 else 0) + (if act == Finalize && finalizes then 1 else 0)
  {
    var head := if msg.ResolveWith? then [RunResolver] else [];
    var tail := if finalizes then [Finalize] else [];
    CountOfSum(head + [Release] + Ending(msg, env), tail, act);
    CountOfSum(head + [Release], Ending(msg, env), act);
    CountOfSum(head, [Release], act);
  }

  lemma {:induction false} CountOfSum(a: seq<Act>, b: seq<Act>, act: Act)
    ensures Count(a + b, act) == Count(a, act) + Count(b, act)
  {
    if a == [] {
      assert a + b == b;
    } else {
      assert (a + b)[1..] == a[1..] + b;
      CountOfSum(a[1..], b, act);
    }
  }

  lemma CountsOfEnding(msg: Msg, env: Env)
    ensures var log := Ending(msg, env);
      && Count(log, Release) == 0 && Count(log, Finalize) == 0
      && Count(log, Resolve(true)) == (if Resolved(msg, env) then 1 else 0)
      && Count(log, Reject(true)) == (if !Resolved(msg, env) && env.rejectOk then 1 else 0)
      && Count(log, Reject(false)) == (if !Resolved(msg, env) && !env.rejectOk then 1 else 0)
  {
    CountInEnding(msg, env, Release);
    CountInEnding(msg, env, Finalize);
    CountInEnding(msg, env, Resolve(true));
    CountInEnding(msg, env, Reject(true));
    CountInEnding(msg, env, Reject(false));
  }

  lemma CountInEnding(msg: Msg, env: Env, act: Act)
    ensures Count(Ending(msg, env), act)
      == (if Resolves(msg, env) && act == Resolve(env.resolveOk) then 1 else 0)
       + (if !Resolved(msg, env) && act == Reject(env.rejectOk) then 1 else 0)
  {
    var resolving := if Resolves(msg, env) then [Resolve(env.resolveOk)] else [];
    var rejecting := if Resolved(msg, env) then [] else [Reject(env.rejectOk)];
    CountOfSum(resolving, rejecting, act);
    CountOfOne(Resolve(env.resolveOk), act);
    CountOfOne(Reject(env.rejectOk), act);
  }

  lemma CountOfOne(only: Act, act: Act)
    ensures Count([only], act) == if only == act then 1 else 0
  {
    assert [only][1..] == [];
  }

  // ----- which message, and what it comes to

  lemma InSteps(steps: seq<Step>)
    requires steps != []
    ensures forall step :: step in steps <==> step == steps[0] || step in steps[1..]
  {
  }

  // From where `msg` is queued: it is still there, or one dispatch took it.
  ghost predicate Ended(msg: Msg, finalizes: bool, steps: seq<Step>, s: State) {
    if s.queue == [] then
      exists env :: s.log == ActsOf(msg, env, finalizes) && forall e :: Dispatches(e) in steps <==> e == env
    else
      s.log == [] && forall e :: Dispatches(e) !in steps
  }

  ghost predicate NothingSent(steps: seq<Step>) {
    TaskSends(ResolveWith) !in steps && TaskSends(RejectWith) !in steps && TaskPanics !in steps
  }

  lemma {:induction false} FromDone(s: State, steps: seq<Step>, s': State)
    requires !MayStillSend(s) && s.queue == [] && Run(s, steps, s')
    ensures s'.queue == [] && s'.sent == s.sent && s'.log == s.log
    ensures (forall e :: Dispatches(e) !in steps) && NothingSent(steps)
    decreases |steps|
  {
    if steps != [] {
      InSteps(steps);
      FromDone(Apply(s, steps[0]), steps[1..], s');
    }
  }

  lemma {:induction false} FromQueued(s: State, msg: Msg, steps: seq<Step>, s': State)
    requires !MayStillSend(s) && s.queue == [msg] && s.sent == 1 && s.log == [] && Run(s, steps, s')
    ensures s'.sent == 1 && Ended(msg, s.slot.Some?, steps, s') && NothingSent(steps)
    decreases |steps|
  {
    if steps != [] {
      InSteps(steps);
      var next := Apply(s, steps[0]);
      if steps[0].Dispatches? {
        FromDone(next, steps[1..], s');
        assert s'.log == ActsOf(msg, steps[0].env, s.slot.Some?);
      } else {
        FromQueued(next, msg, steps[1..], s');
        EndedLater(msg, s.slot.Some?, steps, s');
      }
    }
  }

  lemma EndedLater(msg: Msg, finalizes: bool, steps: seq<Step>, s: State)
    requires steps != [] && !steps[0].Dispatches? && Ended(msg, finalizes, steps[1..], s)
    ensures Ended(msg, finalizes, steps, s)
  {
    InSteps(steps);
    if s.queue == [] {
      var env :| s.log == ActsOf(msg, env, finalizes) && forall e :: Dispatches(e) in steps[1..] <==> e == env;
      assert forall e :: Dispatches(e) in steps <==> e == env;
    }
  }

  lemma {:induction false} FromPanicked(s: State, steps: seq<Step>, s': State)
    requires s.task == Panicked && s.watcher == Awaiting && s.queue == [] && s.sent == 0 && s.log == []
    requires Run(s, steps, s')
    ensures NothingSent(steps) && (s'.sent == 1 <==> WatcherWakes in steps) && s'.sent <= 1
    ensures s'.sent == 1 ==> Ended(RejectWith, s.slot.Some?, steps, s')
    decreases |steps|
  {
    if steps != [] {
      InSteps(steps);
      var next := Apply(s, steps[0]);
      if steps[0].WatcherWakes? {
        FromQueued(next, RejectWith, steps[1..], s');
        EndedLater(RejectWith, s.slot.Some?, steps, s');
      } else {
        assert steps[0].WatcherIsCancelled?;
        FromDone(next, steps[1..], s');
        NeverWakes(next, steps[1..], s');
      }
    }
  }

  lemma {:induction false} NeverWakes(s: State, steps: seq<Step>, s': State)
    requires s.watcher == WatcherDone && Run(s, steps, s')
    ensures WatcherWakes !in steps
    decreases |steps|
  {
    if steps != [] {
      InSteps(steps);
      NeverWakes(Apply(s, steps[0]), steps[1..], s');
    }
  }

  predicate Sends(steps: seq<Step>) {
    || TaskSends(ResolveWith) in steps || TaskSends(RejectWith) in steps
    || (TaskPanics in steps && WatcherWakes in steps)
  }

  function MessageOf(steps: seq<Step>): Msg {
    if TaskSends(ResolveWith) in steps then ResolveWith else RejectWith
  }

  lemma {:induction false} FromRunning(s: State, steps: seq<Step>, s': State)
    requires s.task == Running && s.queue == [] && s.sent == 0 && s.log == [] && Run(s, steps, s')
    ensures s'.sent <= 1 && (s'.sent == 1 <==> Sends(steps))
    ensures s'.sent == 1 ==> Ended(MessageOf(steps), s.slot.Some?, steps, s')
    decreases |steps|
  {
    if steps != [] {
      InSteps(steps);
      var step, rest, next := steps[0], steps[1..], Apply(s, steps[0]);
      match step {
        case TaskSends(msg) =>
          FromQueued(next, msg, rest, s');
          EndedLater(msg, s.slot.Some?, steps, s');
        case TaskPanics =>
          if s.watcher == Awaiting {
            FromPanicked(next, rest, s');
            if s'.sent == 1 {
              EndedLater(RejectWith, s.slot.Some?, steps, s');
            }
          } else {
            FromDone(next, rest, s');
            NeverWakes(next, rest, s');
          }
        case TaskIsCancelled =>
          FromDone(next, rest, s');
        case WatcherIsCancelled =>
          FromRunning(next, rest, s');
          if s'.sent == 1 {
            EndedLater(MessageOf(steps), s.slot.Some?, steps, s');
          }
        case _ =>
      }
    }
  }

  // A message is sent if and only if the task's future finished, or it panicked and the
  // watcher woke to it. Once that message is processed, the promise was resolved if and
  // only if the future had finished with a value and resolver, conversion, release and
  // engine all answered well to the one dispatch; otherwise it was rejected. The function
  // was released after the resolver and before either.
  lemma SettledAsSent(start: State, steps: seq<Step>, s: State)
    requires Started(start) && Run(start, steps, s)
    ensures s.sent == 1 <==>
      || TaskSends(ResolveWith) in steps || TaskSends(RejectWith) in steps
      || (TaskPanics in steps && WatcherWakes in steps)
    ensures s.sent == 1 && s.queue == [] ==> exists env ::
      && Dispatches(env) in steps && (forall e :: Dispatches(e) in steps ==> e == env)
      && AnsweredWell(s.log, TaskSends(ResolveWith) in steps, env)
  {
    FromRunning(start, steps, s);
    if s.sent == 1 && s.queue == [] {
      var env :| s.log == ActsOf(MessageOf(steps), env, start.slot.Some?) && forall e :: Dispatches(e) in steps <==> e == env;
      ActsAnswer(MessageOf(steps), env, start.slot.Some?);
      assert Dispatches(env) in steps;
    }
  }

  // The acts of a settlement, told from the answers alone.
  predicate AnsweredWell(log: seq<Act>, withValue: bool, env: Env) {
    var asks := withValue && env.resolverOk && env.convertOk && env.releaseOk;
    && (Count(log, Resolve(true)) == 1 <==> asks && env.resolveOk)
    && Count(log, Resolve(env.resolveOk)) == (if asks then 1 else 0)
    && Count(log, Reject(env.rejectOk)) == (if asks && env.resolveOk then 0 else 1)
    && Count(log, RunResolver) == (if withValue then 1 else 0)
    && (if withValue then |log| > 2 && log[0] == RunResolver && log[1] == Release else |log| > 1 && log[0] == Release)
  }

  lemma ActsAnswer(msg: Msg, env: Env, finalizes: bool)
    ensures AnsweredWell(ActsOf(msg, env, finalizes), msg == ResolveWith, env)
  {
    CountInEnding(msg, env, Resolve(true));
    CountInEnding(msg, env, Resolve(env.resolveOk));
    CountInEnding(msg, env, Reject(env.rejectOk));
    CountInActs(msg, env, finalizes, Resolve(true));
    CountInActs(msg, env, finalizes, Resolve(env.resolveOk));
    CountInActs(msg, env, finalizes, Reject(env.rejectOk));
    CountOfResolver(msg, env, finalizes);
    assert Ending(msg, env) != [];
  }

  lemma CountOfResolver(msg: Msg, env: Env, finalizes: bool)
    ensures Count(ActsOf(msg, env, finalizes), RunResolver) == if msg == ResolveWith then 1 else 0
  {
    var head := if msg.ResolveWith? then [RunResolver] else [];
    var tail := if finalizes then [Finalize] else [];
    CountInEnding(msg, env, RunResolver);
    CountOfSum(head + [Release] + Ending(msg, env), tail, RunResolver);
    CountOfSum(head + [Release], Ending(msg, env), RunResolver);
    CountOfSum(head, [Release], RunResolver);
    CountOfOne(RunResolver, RunResolver);
    CountOfOne(Release, RunResolver);
    CountOfOne(Finalize, RunResolver);
  }

  // Both ways to a settlement can be gone to their end.
  lemma BothWaysSettle(start: State, msg: Msg, env: Env)
    requires Started(start)
    ensures exists s :: Run(start, [TaskSends(msg), Dispatches(env)], s) && s.sent == 1 && s.queue == []
    ensures exists s :: Run(start, [TaskPanics, WatcherWakes, Dispatches(env)], s) && s.sent == 1 && s.queue == []
  {
    var sent := Apply(start, TaskSends(msg));
    OneStep(sent, Dispatches(env), [], Apply(sent, Dispatches(env)));
    OneStep(start, TaskSends(msg), [Dispatches(env)], Apply(sent, Dispatches(env)));
    var woken := Apply(Apply(start, TaskPanics), WatcherWakes);
    OneStep(woken, Dispatches(env), [], Apply(woken, Dispatches(env)));
    OneStep(Apply(start, TaskPanics), WatcherWakes, [Dispatches(env)], Apply(woken, Dispatches(env)));
    OneStep(start, TaskPanics, [WatcherWakes, Dispatches(env)], Apply(woken, Dispatches(env)));
  }

  lemma OneStep(s: State, step: Step, rest: seq<Step>, s': State)
    requires Enabled(s, step) && Run(Apply(s, step), rest, s')
    ensures Run(s, [step] + rest, s')
  {
    assert ([step] + rest)[1..] == rest;
  }

  // From a call whose references were built to a processed settlement: the array was
  // written in full, every one of its references is deleted, and nothing else is.
  lemma ReferencesLiveForTheCall(counts: map<Ref, nat>, first: Ref, n: nat, steps: seq<Step>, s: State)
    requires forall r | r in counts :: r < first
    requires Run(State(Running, Awaiting, [], 0, Some(Slots(first, n)), WithNew(counts, first, n), []), steps, s)
    ensures s.sent == 1 && s.queue == [] ==> s.counts == counts
    ensures s.sent == 0 || s.queue != [] ==> HeldOnce(s.counts, Slots(first, n))
  {
    NewRefsAreHeldOnce(counts, first, n);
    EverySettlement(State(Running, Awaiting, [], 0, Some(Slots(first, n)), WithNew(counts, first, n), []), steps, s);
  }
}
