/**
 The lifetime of one `ThreadsafeFunction` handle, as a step relation.

 Any number of threads own clones of the `Arc` around the handle and call, abort or drop
 it; the engine may finalize the function at any moment after it was created. Every
 acquisition and release of the `aborted` lock, every read and write of the flag and every
 engine call is a step of its own.

 The drop of the last clone has two parts in the source: the strong count reaches zero,
 and only then does the `Drop` body read `aborted` and release. The model keeps the two
 apart, so that both the runs in which they are one step and the runs in which the
 finalizer slips between them can be stated.
 */
module TsfnLifecycle {
  import opened Wrappers

  type Thread = nat

  // What a thread does with its clone of the `Arc`.
  datatype Pc =
    | NoHandle       // owns no clone
    | Holding        // owns a clone, no operation in progress
    | CallLocked     // in `call*`: owns the read lock, flag not read yet
    | CallIssuing    // in `call*`: read `aborted == false`, about to call the engine
    | CallReturning  // in `call*`: about to give the read lock back
    | AbortLocked    // in `abort`: owns the write lock, flag not read yet
    | AbortReleased  // in `abort`: the engine released the function, flag not stored yet
    | AbortUnlocking // in `abort`: about to give the write lock back
    | Leaving        // about to drop its clone
    | Dropping       // its drop took the strong count to zero; `Drop` has not read the flag
    | DropIssuing    // `Drop` read `aborted == false` and a non-null pointer

  // Where the engine's finalizer `thread_finalize_cb` is.
  datatype Fin =
    | FinIdle
    | FinUpgrade   // entered; `Weak::upgrade` is next
    | FinLocking   // upgrade succeeded: owns a clone, waits for the write lock
    | FinStoring   // owns the write lock
    | FinUnlocking // stored `true`
    | FinDropArc   // about to drop the clone it got from `upgrade`
    | FinFree      // about to free the callback box
    | FinDone

  datatype Writer = User(t: Thread) | Finalizer

  // What Rust asks of the engine: a call of the function, or its release in one of the modes.
  datatype Request = Calls(t: Thread) | Aborts(t: Thread) | Releases(t: Thread)

  datatype State = State(
    pcs: map<Thread, Pc>,
    aborted: bool,
    readers: set<Thread>,
    writer: Option<Writer>,
    raw: bool,        // the pointer in the handle is not null
    fin: Fin,
    upgraded: bool,   // the finalizer's `upgrade` gave it a clone
    issued: multiset<Request>,
    releases: nat,    // releases issued from Rust, in either mode
    boxFrees: nat,    // times the callback box was freed
    lateCall: bool,   // a call or an abort was issued after the finalizer completed
    lateRelease: bool // a release by `Drop` was issued after the finalizer completed
  )

  function At(s: State, t: Thread): Pc {
    if t in s.pcs then s.pcs[t] else NoHandle
  }

  predicate OwnsClone(pc: Pc) {
    pc != NoHandle && pc != Dropping && pc != DropIssuing
  }

  predicate Reads(pc: Pc) {
    pc == CallLocked || pc == CallIssuing || pc == CallReturning
  }

  predicate Writes(pc: Pc) {
    pc == AbortLocked || pc == AbortReleased || pc == AbortUnlocking
  }

  predicate InDropWindow(pc: Pc) {
    pc == Dropping || pc == DropIssuing
  }

  predicate FinOwnsClone(fin: Fin) {
    fin == FinLocking || fin == FinStoring || fin == FinUnlocking || fin == FinDropArc
  }

  // The strong count of the `Arc` is not zero.
  ghost predicate Strong(s: State) {
    FinOwnsClone(s.fin) || exists t :: OwnsClone(At(s, t))
  }

  ghost predicate SomeoneElseOwns(s: State, t: Thread) {
    FinOwnsClone(s.fin) || exists u :: u != t && OwnsClone(At(s, u))
  }

  ghost predicate WindowOpen(s: State) {
    exists t :: InDropWindow(At(s, t))
  }

  datatype Step =
    | Clone(t: Thread, u: Thread)
    | CallLock(t: Thread)
    | CallRead(t: Thread)
    | CallIssue(t: Thread)
    | CallUnlock(t: Thread)
    | AbortLock(t: Thread)
    | AbortIssue(t: Thread)
    | AbortStore(t: Thread)
    | AbortUnlock(t: Thread)
    | DropClone(t: Thread)
    | DropLast(t: Thread)
    | DropRead(t: Thread)
    | DropRelease(t: Thread)
    | FinStart
    | FinTryUpgrade
    | FinLock
    | FinStore
    | FinUnlock
    | FinDropClone
    | FinFreeBox

  ghost predicate Enabled(s: State, step: Step) {
    match step
    case Clone(t, u) => At(s, t) == Holding && At(s, u) == NoHandle
    case CallLock(t) => At(s, t) == Holding && s.writer == None
    case CallRead(t) => At(s, t) == CallLocked
    case CallIssue(t) => At(s, t) == CallIssuing
    case CallUnlock(t) => At(s, t) == CallReturning
    case AbortLock(t) => At(s, t) == Holding && s.writer == None && s.readers == {}
    case AbortIssue(t) => At(s, t) == AbortLocked
    case AbortStore(t) => At(s, t) == AbortReleased
    case AbortUnlock(t) => At(s, t) == AbortUnlocking
    case DropClone(t) => (At(s, t) == Holding || At(s, t) == Leaving) && SomeoneElseOwns(s, t)
    case DropLast(t) => (At(s, t) == Holding || At(s, t) == Leaving) && !SomeoneElseOwns(s, t)
    case DropRead(t) => At(s, t) == Dropping && s.writer == None
    case DropRelease(t) => At(s, t) == DropIssuing
    case FinStart => s.fin == FinIdle && s.raw
    case FinTryUpgrade => s.fin == FinUpgrade
    case FinLock => s.fin == FinLocking && s.writer == None && s.readers == {}
    case FinStore => s.fin == FinStoring
    case FinUnlock => s.fin == FinUnlocking
    case FinDropClone => s.fin == FinDropArc
    case FinFreeBox => s.fin == FinFree
  }

  function Move(s: State, t: Thread, pc: Pc): State {
    s.(pcs := s.pcs[t := pc])
  }

  ghost function Apply(s: State, step: Step): State
    requires Enabled(s, step)
  {
    match step
    case Clone(t, u) => Move(s, u, Holding)
    case CallLock(t) => Move(s, t, CallLocked).(readers := s.readers + {t})
    case CallRead(t) => Move(s, t, if s.aborted then CallReturning else CallIssuing)
    case CallIssue(t) =>
      Move(s, t, CallReturning)
        .(issued := s.issued + multiset{Calls(t)}, lateCall := s.lateCall || s.fin == FinDone)
    case CallUnlock(t) => Move(s, t, Holding).(readers := s.readers - {t})
    case AbortLock(t) => Move(s, t, AbortLocked).(writer := Some(User(t)))
    case AbortIssue(t) =>
      if s.aborted then
        Move(s, t, AbortUnlocking)
      else
        Move(s, t, AbortReleased)
          .(issued := s.issued + multiset{Aborts(t)}, releases := s.releases + 1, lateCall := s.lateCall || s.fin == FinDone)
    case AbortStore(t) => Move(s, t, AbortUnlocking).(aborted := true)
    case AbortUnlock(t) => Move(s, t, Leaving).(writer := None)
    case DropClone(t) => Move(s, t, NoHandle)
    case DropLast(t) => Move(s, t, Dropping)
    case DropRead(t) => Move(s, t, if s.aborted || !s.raw then NoHandle else DropIssuing)
    case DropRelease(t) =>
      Move(s, t, NoHandle)
        .(issued := s.issued + multiset{Releases(t)}, releases := s.releases + 1,
          lateRelease := s.lateRelease || s.fin == FinDone)
    case FinStart => s.(fin := FinUpgrade)
    case FinTryUpgrade =>
      if Strong(s) then s.(fin := FinLocking, upgraded := true) else s.(fin := FinFree)
    case FinLock => s.(fin := FinStoring, writer := Some(Finalizer))
    case FinStore => s.(fin := FinUnlocking, aborted := true)
    case FinUnlock => s.(fin := FinDropArc, writer := None)
    // When this is the last clone the handle's `Drop` reads `aborted == true` and does nothing.
    case FinDropClone => s.(fin := FinFree)
    case FinFreeBox => s.(fin := FinDone, boxFrees := s.boxFrees + 1)
  }

  // `create` returned a handle, failed after the engine had created the function
  // (weak mode could not unref it), or failed before (the pointer stays null).
  ghost predicate Initial(s: State) {
    exists pc, raw :: IsCreated(s, pc, raw)
  }

  predicate IsCreated(s: State, pc: Pc, raw: bool) {
    && (pc == Leaving || (pc == Holding && raw))
    && s == State(map[0 := pc], false, {}, None, raw, FinIdle, false, multiset{}, 0, 0, false, false)
  }

  ghost predicate Run(s: State, steps: seq<Step>, s': State)
    decreases |steps|
  {
    if steps == [] then s == s'
    else Enabled(s, steps[0]) && Run(Apply(s, steps[0]), steps[1..], s')
  }

  // A run in which the drop of the last clone and its `Drop` body are one step: while a
  // thread is between the two, nothing but that thread's own body moves.
  ghost predicate AtomicDropRun(s: State, steps: seq<Step>, s': State)
    decreases |steps|
  {
    if steps == [] then s == s'
    else
      && Enabled(s, steps[0])
      && (WindowOpen(s) ==> steps[0].DropRead? || steps[0].DropRelease?)
      && AtomicDropRun(Apply(s, steps[0]), steps[1..], s')
  }

  // ----- the inductive invariant

  ghost predicate LockInv(s: State) {
    && (forall t :: t in s.readers <==> Reads(At(s, t)))
    && (forall t :: s.writer == Some(User(t)) <==> Writes(At(s, t)))
    && (s.writer == Some(Finalizer) <==> s.fin == FinStoring || s.fin == FinUnlocking)
    && (s.writer.Some? ==> s.readers == {})
  }

  ghost predicate WindowInv(s: State) {
    && (forall t, u :: InDropWindow(At(s, t)) && InDropWindow(At(s, u)) ==> t == u)
    && (WindowOpen(s) ==> !Strong(s))
    && (!s.raw ==> s.fin == FinIdle && forall t :: !Reads(At(s, t)) && !Writes(At(s, t)) && At(s, t) != Holding)
  }

  ghost predicate FlagInv(s: State) {
    && (forall t :: At(s, t) == CallIssuing || At(s, t) == AbortReleased || At(s, t) == DropIssuing ==> !s.aborted)
    && (forall t :: At(s, t) == DropIssuing ==> s.raw)
    && (s.upgraded ==> s.fin != FinIdle && s.fin != FinUpgrade)
    && (FinOwnsClone(s.fin) ==> s.upgraded)
    && (s.upgraded && s.fin != FinLocking && s.fin != FinStoring ==> s.aborted)
    && ((s.fin == FinFree || s.fin == FinDone) && !s.upgraded ==> !Strong(s))
  }

  // A release from Rust leaves behind the flag, a pending store of it, or no owner at all.
  ghost predicate ReleaseInv(s: State) {
    && s.releases <= 1
    && (!s.raw ==> s.releases == 0)
    && (s.releases == 1 && !s.aborted ==>
          (!Strong(s) && !WindowOpen(s)) || exists t :: At(s, t) == AbortReleased)
    && ((exists t :: At(s, t) == AbortReleased) ==> s.releases == 1)
    && (s.boxFrees == if s.fin == FinDone then 1 else 0)
  }

  // An abort that has done its work has stored the flag, and a flag that the finalizer did
  // not store comes from an abort that has released. When the last clone is gone and its
  // drop is over, the function was released or the flag is up.
  ghost predicate DoneInv(s: State) {
    && (forall t :: At(s, t) == AbortUnlocking ==> s.aborted)
    && (s.aborted && !s.upgraded ==> s.releases == 1)
    && (s.raw && !s.aborted && !Strong(s) && !WindowOpen(s) ==> s.releases == 1)
  }

  ghost predicate Inv(s: State) {
    LockInv(s) && WindowInv(s) && FlagInv(s) && ReleaseInv(s) && DoneInv(s) && !s.lateCall
  }

  function Mover(step: Step): Option<Thread> {
    match step
    case Clone(_, u) => Some(u)
    case CallLock(t) => Some(t)
    case CallRead(t) => Some(t)
    case CallIssue(t) => Some(t)
    case CallUnlock(t) => Some(t)
    case AbortLock(t) => Some(t)
    case AbortIssue(t) => Some(t)
    case AbortStore(t) => Some(t)
    case AbortUnlock(t) => Some(t)
    case DropClone(t) => Some(t)
    case DropLast(t) => Some(t)
    case DropRead(t) => Some(t)
    case DropRelease(t) => Some(t)
    case _ => None
  }

  lemma OthersStay(s: State, step: Step)
    requires Enabled(s, step)
    ensures forall v: Thread :: Some(v) != Mover(step) ==> At(Apply(s, step), v) == At(s, v)
  {
  }

  lemma InitialInv(s: State)
    requires Initial(s)
    ensures Inv(s)
  {
    assert OwnsClone(At(s, 0));
  }

  // The steps, by what the thread that takes them is doing.
  predicate ByCaller(step: Step) {
    step.Clone? || step.CallLock? || step.CallRead? || step.CallIssue? || step.CallUnlock?
  }

  predicate ByAborter(step: Step) {
    step.AbortLock? || step.AbortIssue? || step.AbortStore? || step.AbortUnlock?
  }

  predicate ByDropper(step: Step) {
    step.DropClone? || step.DropLast? || step.DropRead? || step.DropRelease?
  }

  lemma LockKeptByCaller(s: State, step: Step)
    requires Inv(s) && Enabled(s, step) && ByCaller(step)
    ensures LockInv(Apply(s, step))
  {
    OthersStay(s, step);
  }

  lemma LockKeptByAborter(s: State, step: Step)
    requires Inv(s) && Enabled(s, step) && ByAborter(step)
    ensures LockInv(Apply(s, step))
  {
    OthersStay(s, step);
  }

  lemma LockKeptByLeaver(s: State, step: Step)
    requires Inv(s) && Enabled(s, step) && (step.DropClone? || step.DropLast?)
    ensures LockInv(Apply(s, step))
  {
    OthersStay(s, step);
  }

  lemma LockKeptByDropper(s: State, step: Step)
    requires Inv(s) && Enabled(s, step) && (step.DropRead? || step.DropRelease?)
    ensures LockInv(Apply(s, step))
  {
    OthersStay(s, step);
  }

  lemma LockKeptByFinalizer(s: State, step: Step)
    requires Inv(s) && Enabled(s, step) && Mover(step).None?
    ensures LockInv(Apply(s, step))
  {
    OthersStay(s, step);
  }

  lemma LockKept(s: State, step: Step)
    requires Inv(s) && Enabled(s, step)
    ensures LockInv(Apply(s, step))
  {
    if ByCaller(step) {
      LockKeptByCaller(s, step);
    } else if ByAborter(step) {
      LockKeptByAborter(s, step);
    } else if step.DropClone? || step.DropLast? {
      LockKeptByLeaver(s, step);
    } else if ByDropper(step) {
      LockKeptByDropper(s, step);
    } else {
      LockKeptByFinalizer(s, step);
    }
  }

  lemma WindowKeptByCaller(s: State, step: Step)
    requires Inv(s) && Enabled(s, step) && ByCaller(step)
    ensures WindowInv(Apply(s, step))
  {
    OthersStay(s, step);
  }

  lemma WindowKeptByAborter(s: State, step: Step)
    requires Inv(s) && Enabled(s, step) && ByAborter(step)
    ensures WindowInv(Apply(s, step))
  {
    OthersStay(s, step);
  }

  lemma WindowKeptByLeaver(s: State, step: Step)
    requires Inv(s) && Enabled(s, step) && (step.DropClone? || step.DropLast?)
    ensures WindowInv(Apply(s, step))
  {
    OthersStay(s, step);
  }

  lemma WindowKeptByDropper(s: State, step: Step)
    requires Inv(s) && Enabled(s, step) && (step.DropRead? || step.DropRelease?)
    ensures WindowInv(Apply(s, step))
  {
    OthersStay(s, step);
  }

  lemma WindowKeptByFinalizer(s: State, step: Step)
    requires Inv(s) && Enabled(s, step) && Mover(step).None?
    ensures WindowInv(Apply(s, step))
  {
    OthersStay(s, step);
  }

  lemma WindowKept(s: State, step: Step)
    requires Inv(s) && Enabled(s, step)
    ensures WindowInv(Apply(s, step))
  {
    if ByCaller(step) {
      WindowKeptByCaller(s, step);
    } else if ByAborter(step) {
      WindowKeptByAborter(s, step);
    } else if step.DropClone? || step.DropLast? {
      WindowKeptByLeaver(s, step);
    } else if ByDropper(step) {
      WindowKeptByDropper(s, step);
    } else {
      WindowKeptByFinalizer(s, step);
    }
  }

  lemma FlagKeptByCaller(s: State, step: Step)
    requires Inv(s) && Enabled(s, step) && ByCaller(step)
    ensures FlagInv(Apply(s, step))
  {
    OthersStay(s, step);
  }

  lemma FlagKeptByAborter(s: State, step: Step)
    requires Inv(s) && Enabled(s, step) && ByAborter(step)
    ensures FlagInv(Apply(s, step))
  {
    OthersStay(s, step);
  }

  lemma FlagKeptByDropper(s: State, step: Step)
    requires Inv(s) && Enabled(s, step) && ByDropper(step)
    ensures FlagInv(Apply(s, step))
  {
    OthersStay(s, step);
  }

  lemma FlagKeptByFinalizer(s: State, step: Step)
    requires Inv(s) && Enabled(s, step) && Mover(step).None?
    ensures FlagInv(Apply(s, step))
  {
    OthersStay(s, step);
  }

  lemma FlagKept(s: State, step: Step)
    requires Inv(s) && Enabled(s, step)
    ensures FlagInv(Apply(s, step))
  {
    if ByCaller(step) {
      FlagKeptByCaller(s, step);
    } else if ByAborter(step) {
      FlagKeptByAborter(s, step);
    } else if ByDropper(step) {
      FlagKeptByDropper(s, step);
    } else {
      FlagKeptByFinalizer(s, step);
    }
  }

  lemma ReleaseKeptByAborter(s: State, step: Step)
    requires Inv(s) && Enabled(s, step) && ByAborter(step)
    ensures ReleaseInv(Apply(s, step))
  {
    OthersStay(s, step);
    var s' := Apply(s, step);
    if t :| At(s, t) == AbortReleased {
      assert step != AbortStore(t) ==> At(s', t) == AbortReleased;
    } else if step.AbortIssue? {
      assert At(s', step.t) == AbortReleased || s.aborted;
    }
  }

  lemma ReleaseKeptByDropper(s: State, step: Step)
    requires Inv(s) && Enabled(s, step) && ByDropper(step)
    ensures ReleaseInv(Apply(s, step))
  {
    OthersStay(s, step);
    if t :| At(s, t) == AbortReleased {
      assert At(Apply(s, step), t) == AbortReleased;
    }
  }

  lemma ReleaseKeptByCaller(s: State, step: Step)
    requires Inv(s) && Enabled(s, step) && ByCaller(step)
    ensures ReleaseInv(Apply(s, step))
  {
    OthersStay(s, step);
    if t :| At(s, t) == AbortReleased {
      assert At(Apply(s, step), t) == AbortReleased;
    }
  }

  lemma ReleaseKeptByFinalizer(s: State, step: Step)
    requires Inv(s) && Enabled(s, step) && Mover(step).None?
    ensures ReleaseInv(Apply(s, step))
  {
    OthersStay(s, step);
    if t :| At(s, t) == AbortReleased {
      assert At(Apply(s, step), t) == AbortReleased;
    }
  }

  lemma ReleaseKept(s: State, step: Step)
    requires Inv(s) && Enabled(s, step)
    ensures ReleaseInv(Apply(s, step))
  {
    if ByAborter(step) {
      ReleaseKeptByAborter(s, step);
    } else if ByDropper(step) {
      ReleaseKeptByDropper(s, step);
    } else if ByCaller(step) {
      ReleaseKeptByCaller(s, step);
    } else {
      ReleaseKeptByFinalizer(s, step);
    }
  }

  lemma DoneKeptByCaller(s: State, step: Step)
    requires Inv(s) && Enabled(s, step) && ByCaller(step)
    ensures DoneInv(Apply(s, step))
  {
    OthersStay(s, step);
    StrongKept(s, step);
  }

  lemma DoneKeptByAborter(s: State, step: Step)
    requires Inv(s) && Enabled(s, step) && ByAborter(step)
    ensures DoneInv(Apply(s, step))
  {
    OthersStay(s, step);
    StrongKept(s, step);
  }

  lemma DoneKeptByDropper(s: State, step: Step)
    requires Inv(s) && Enabled(s, step) && ByDropper(step)
    ensures DoneInv(Apply(s, step))
  {
    OthersStay(s, step);
    var s' := Apply(s, step);
    if step.DropClone? {
      if !FinOwnsClone(s.fin) {
        var u :| u != step.t && OwnsClone(At(s, u));
        assert OwnsClone(At(s', u));
      }
      assert Strong(s');
    } else if step.DropLast? {
      assert InDropWindow(At(s', step.t));
    } else if step.DropRead? {
      assert !s.aborted && s.raw ==> InDropWindow(At(s', step.t));
    }
  }

  lemma DoneKeptByFinalizer(s: State, step: Step)
    requires Inv(s) && Enabled(s, step) && Mover(step).None?
    ensures DoneInv(Apply(s, step))
  {
    OthersStay(s, step);
    var s' := Apply(s, step);
    assert s'.pcs == s.pcs;
    assert WindowOpen(s') == WindowOpen(s);
    if Strong(s) && !step.FinDropClone? && !FinOwnsClone(s.fin) {
      var t :| OwnsClone(At(s, t));
      assert OwnsClone(At(s', t));
    }
  }

  // A caller or an aborter owns a clone before and after each of its steps.
  lemma StrongKept(s: State, step: Step)
    requires Enabled(s, step) && (ByCaller(step) || ByAborter(step))
    ensures Strong(Apply(s, step))
  {
    var t := Mover(step).value;
    assert OwnsClone(At(Apply(s, step), t));
  }

  lemma DoneKept(s: State, step: Step)
    requires Inv(s) && Enabled(s, step)
    ensures DoneInv(Apply(s, step))
  {
    if ByCaller(step) {
      DoneKeptByCaller(s, step);
    } else if ByAborter(step) {
      DoneKeptByAborter(s, step);
    } else if ByDropper(step) {
      DoneKeptByDropper(s, step);
    } else {
      DoneKeptByFinalizer(s, step);
    }
  }

  lemma InvKept(s: State, step: Step)
    requires Inv(s) && Enabled(s, step)
    ensures Inv(Apply(s, step))
  {
    LockKept(s, step);
    WindowKept(s, step);
    FlagKept(s, step);
    ReleaseKept(s, step);
    DoneKept(s, step);
  }

  lemma {:induction false} RunKeepsInv(s: State, steps: seq<Step>, s': State)
    requires Inv(s) && Run(s, steps, s')
    ensures Inv(s')
    decreases |steps|
  {
    if steps != [] {
      InvKept(s, steps[0]);
      RunKeepsInv(Apply(s, steps[0]), steps[1..], s');
    }
  }

  lemma Reachable(s0: State, steps: seq<Step>, s: State)
    requires Initial(s0) && Run(s0, steps, s)
    ensures Inv(s)
  {
    InitialInv(s0);
    RunKeepsInv(s0, steps, s);
  }

  // ----- what holds of every interleaving

  // The flag never reverts, whoever stored it.
  lemma {:induction false} AbortedIsForever(s: State, steps: seq<Step>, s': State)
    requires Run(s, steps, s') && s.aborted
    ensures s'.aborted
    decreases |steps|
  {
    if steps != [] {
      AbortedIsForever(Apply(s, steps[0]), steps[1..], s');
    }
  }

  // Rust releases the function at most once, never calls or aborts it after the finalizer
  // completed, and the callback box is freed exactly when the finalizer completes. A flag
  // that the finalizer did not store means one release; a finalizer that found a clone has
  // stored it; and once the last clone and its drop are gone, the function was released
  // unless the finalizer had told the handle.
  lemma EveryRunIsSafe(s: State, steps: seq<Step>, s': State)
    requires Initial(s) && Run(s, steps, s')
    ensures s'.releases <= 1
    ensures !s'.lateCall
    ensures s'.boxFrees == if s'.fin == FinDone then 1 else 0
    ensures !s.raw ==> s'.releases == 0 && s'.boxFrees == 0
    ensures s'.aborted && !s'.upgraded ==> s'.releases == 1
    ensures s'.fin == FinDone && s'.upgraded ==> s'.aborted
    ensures s.raw && !Strong(s') && !WindowOpen(s') && s'.releases == 0 ==> s'.upgraded && s'.aborted
  {
    RawIsFixed(s, steps, s');
    InitialInv(s);
    RunKeepsInv(s, steps, s');
  }

  lemma {:induction false} RawIsFixed(s: State, steps: seq<Step>, s': State)
    requires Run(s, steps, s')
    ensures s'.raw == s.raw
    decreases |steps|
  {
    if steps != [] {
      RawIsFixed(Apply(s, steps[0]), steps[1..], s');
    }
  }

  // ----- the release issued by `Drop`

  ghost predicate NoLateRelease(s: State) {
    !s.lateRelease && (s.fin == FinDone && WindowOpen(s) ==> s.aborted)
  }

  lemma SafeStep(s: State, step: Step)
    requires Inv(s) && NoLateRelease(s) && Enabled(s, step)
    requires s.fin == FinDone || (WindowOpen(s) ==> step.DropRead? || step.DropRelease?)
    ensures NoLateRelease(Apply(s, step))
  {
    OthersStay(s, step);
    assert step.DropRelease? ==> InDropWindow(At(s, step.t));
    assert step.DropLast? ==> OwnsClone(At(s, step.t));
  }

  lemma {:induction false} AtomicDropKeeps(s: State, steps: seq<Step>, s': State)
    requires Inv(s) && NoLateRelease(s) && AtomicDropRun(s, steps, s')
    ensures NoLateRelease(s')
    decreases |steps|
  {
    if steps != [] {
      InvKept(s, steps[0]);
      SafeStep(s, steps[0]);
      AtomicDropKeeps(Apply(s, steps[0]), steps[1..], s');
    }
  }

  // With the drop of the last clone as one step, no release follows the finalizer either.
  lemma AtomicDropIsSafe(s: State, steps: seq<Step>, s': State)
    requires Initial(s) && AtomicDropRun(s, steps, s')
    ensures !s'.lateRelease
  {
    InitialInv(s);
    AtomicDropKeeps(s, steps, s');
  }

  // Left to themselves the two halves of the drop can be separated by the whole
  // finalizer: its `upgrade` fails, so it does not store the flag, and `Drop` then
  // releases a function that is gone.
  lemma FinalizerCanSlipIntoDrop() returns (s: State, steps: seq<Step>, s': State)
    ensures Initial(s) && Run(s, steps, s') && s'.lateRelease
  {
    s, s' := Slipping(Holding, FinIdle, 0, 0, false), Slipping(NoHandle, FinDone, 1, 1, true);
    assert IsCreated(s, Holding, true);
    SlippingSteps();
    Extend(Slipping(DropIssuing, FinDone, 0, 1, false), DropRelease(0), [], s');
    steps := [DropRelease(0)] + [];
    Extend(Slipping(Dropping, FinDone, 0, 1, false), DropRead(0), steps, s');
    steps := [DropRead(0)] + steps;
    Extend(Slipping(Dropping, FinFree, 0, 0, false), FinFreeBox, steps, s');
    steps := [FinFreeBox] + steps;
    Extend(Slipping(Dropping, FinUpgrade, 0, 0, false), FinTryUpgrade, steps, s');
    steps := [FinTryUpgrade] + steps;
    Extend(Slipping(Dropping, FinIdle, 0, 0, false), FinStart, steps, s');
    steps := [FinStart] + steps;
    Extend(s, DropLast(0), steps, s');
    steps := [DropLast(0)] + steps;
  }

  // One thread, the flag unset, the lock free.
  function Slipping(pc: Pc, fin: Fin, releases: nat, boxFrees: nat, late: bool): State {
    State(map[0 := pc], false, {}, None, true, fin, false, if late then multiset{Releases(0)} else multiset{},
          releases, boxFrees, false, late)
  }

  ghost predicate Goes(s: State, step: Step, s': State) {
    Enabled(s, step) && Apply(s, step) == s'
  }

  lemma SlippingSteps()
    ensures Goes(Slipping(Holding, FinIdle, 0, 0, false), DropLast(0), Slipping(Dropping, FinIdle, 0, 0, false))
    ensures Goes(Slipping(Dropping, FinIdle, 0, 0, false), FinStart, Slipping(Dropping, FinUpgrade, 0, 0, false))
    ensures Goes(Slipping(Dropping, FinUpgrade, 0, 0, false), FinTryUpgrade, Slipping(Dropping, FinFree, 0, 0, false))
    ensures Goes(Slipping(Dropping, FinFree, 0, 0, false), FinFreeBox, Slipping(Dropping, FinDone, 0, 1, false))
    ensures Goes(Slipping(Dropping, FinDone, 0, 1, false), DropRead(0), Slipping(DropIssuing, FinDone, 0, 1, false))
    ensures Goes(Slipping(DropIssuing, FinDone, 0, 1, false), DropRelease(0), Slipping(NoHandle, FinDone, 1, 1, true))
  {
    SlipDropLast();
    SlipUpgrade();
    SlipDropBody();
  }

  lemma SlipDropLast()
    ensures Goes(Slipping(Holding, FinIdle, 0, 0, false), DropLast(0), Slipping(Dropping, FinIdle, 0, 0, false))
  {
    var s := Slipping(Holding, FinIdle, 0, 0, false);
    assert s.pcs[0 := Dropping] == map[0 := Dropping];
  }

  lemma SlipUpgrade()
    ensures Goes(Slipping(Dropping, FinUpgrade, 0, 0, false), FinTryUpgrade, Slipping(Dropping, FinFree, 0, 0, false))
  {
    var s := Slipping(Dropping, FinUpgrade, 0, 0, false);
    assert forall t :: !OwnsClone(At(s, t));
    assert !Strong(s);
  }

  lemma SlipDropBody()
    ensures Goes(Slipping(Dropping, FinDone, 0, 1, false), DropRead(0), Slipping(DropIssuing, FinDone, 0, 1, false))
    ensures Goes(Slipping(DropIssuing, FinDone, 0, 1, false), DropRelease(0), Slipping(NoHandle, FinDone, 1, 1, true))
  {
    var s, s' := Slipping(Dropping, FinDone, 0, 1, false), Slipping(DropIssuing, FinDone, 0, 1, false);
    assert s.pcs[0 := DropIssuing] == map[0 := DropIssuing];
    assert s'.pcs[0 := NoHandle] == map[0 := NoHandle];
  }

  lemma Extend(s: State, step: Step, rest: seq<Step>, s': State)
    requires Enabled(s, step) && Run(Apply(s, step), rest, s')
    ensures Run(s, [step] + rest, s')
  {
    assert ([step] + rest)[1..] == rest;
  }

  ghost predicate CanReleaseLate(s: State) {
    exists steps, s' :: Run(s, steps, s') && s'.lateRelease
  }

  // The exact condition: once the finalizer has completed, a late release is still to
  // come if and only if some drop is inside the window and the flag was never stored.
  lemma LateReleaseExactly(s0: State, steps0: seq<Step>, s: State)
    requires Initial(s0) && Run(s0, steps0, s)
    requires s.fin == FinDone && !s.lateRelease
    ensures CanReleaseLate(s) <==> WindowOpen(s) && !s.aborted
  {
    InitialInv(s0);
    RunKeepsInv(s0, steps0, s);
    if WindowOpen(s) && !s.aborted {
      WindowLeadsToRelease(s);
    } else if CanReleaseLate(s) {
      var steps, s' :| Run(s, steps, s') && s'.lateRelease;
      ClosedWindowStaysSafe(s, steps, s');
    }
  }

  lemma WriterOwns(s: State, t: Thread)
    requires LockInv(s) && s.writer == Some(User(t))
    ensures OwnsClone(At(s, t))
  {
  }

  lemma NobodyHoldsLock(s: State, t: Thread)
    requires Inv(s) && InDropWindow(At(s, t))
    ensures s.writer == None
  {
    assert WindowOpen(s);
    assert forall u :: !OwnsClone(At(s, u));
    match s.writer {
      case None =>
      case Some(User(u)) => WriterOwns(s, u);
      case Some(Finalizer) =>
    }
  }

  lemma IssuingReleasesLate(s: State, t: Thread)
    requires At(s, t) == DropIssuing && s.fin == FinDone
    ensures var end := Apply(s, DropRelease(t)); Run(s, [DropRelease(t)], end) && end.lateRelease
  {
    Extend(s, DropRelease(t), [], Apply(s, DropRelease(t)));
    assert [DropRelease(t)] + [] == [DropRelease(t)];
  }

  lemma WindowLeadsToRelease(s: State)
    requires Inv(s) && s.fin == FinDone && s.raw && WindowOpen(s) && !s.aborted
    ensures CanReleaseLate(s)
  {
    var t :| InDropWindow(At(s, t));
    NobodyHoldsLock(s, t);
    if At(s, t) == Dropping {
      var mid := Apply(s, DropRead(t));
      IssuingReleasesLate(mid, t);
      Extend(s, DropRead(t), [DropRelease(t)], Apply(mid, DropRelease(t)));
    } else {
      IssuingReleasesLate(s, t);
    }
  }

  lemma {:induction false} ClosedWindowStaysSafe(s: State, steps: seq<Step>, s': State)
    requires Inv(s) && s.fin == FinDone && NoLateRelease(s)
    requires Run(s, steps, s')
    ensures !s'.lateRelease
    decreases |steps|
  {
    if steps != [] {
      InvKept(s, steps[0]);
      SafeStep(s, steps[0]);
      ClosedWindowStaysSafe(Apply(s, steps[0]), steps[1..], s');
    }
  }
}
