/**
 What one call, one abort and one last drop of a threadsafe function's handle do, whatever
 the other threads and the finalizer do meanwhile, and that nobody is ever stuck.
 */
module TsfnOperations {
  import opened TsfnLifecycle
  import opened Wrappers

  // ----- what one operation does, whatever runs beside it

  // The first occurrence of `last` ends the run.
  ghost predicate EndsWith(steps: seq<Step>, last: Step) {
    && steps != [] && steps[|steps| - 1] == last
    && forall i | 0 <= i < |steps| - 1 :: steps[i] != last
  }

  function One(b: bool): nat {
    if b then 1 else 0
  }

  // The requests thread `t` has still to make in the call or the abort it is in.
  function Due(s: State, t: Thread): nat {
    match At(s, t)
    case CallLocked => One(!s.aborted)
    case CallIssuing => 1
    case AbortLocked => One(!s.aborted)
    case _ => 0
  }

  lemma CallBegins(s: State, t: Thread)
    requires Enabled(s, CallLock(t))
    ensures var next := Apply(s, CallLock(t));
      Reads(At(next, t)) && Due(next, t) == One(!s.aborted) && next.aborted == s.aborted && next.issued == s.issued
  {
  }

  lemma CallStep(s: State, step: Step, t: Thread)
    requires Inv(s) && Enabled(s, step) && Reads(At(s, t)) && step != CallUnlock(t)
    ensures var s' := Apply(s, step);
      && Reads(At(s', t)) && s'.aborted == s.aborted
      && s'.issued[Calls(t)] + Due(s', t) == s.issued[Calls(t)] + Due(s, t)
      && s'.issued[Aborts(t)] == s.issued[Aborts(t)] && s'.issued[Releases(t)] == s.issued[Releases(t)]
  {
    if Mover(step) == Some(t) {
      CallersStep(s, step, t);
    } else {
      OthersAsk(s, step, t);
      ReadersHoldTheFlag(s, step, t);
    }
  }

  lemma CallersStep(s: State, step: Step, t: Thread)
    requires Enabled(s, step) && Mover(step) == Some(t) && Reads(At(s, t)) && step != CallUnlock(t)
    ensures var s' := Apply(s, step);
      && Reads(At(s', t)) && s'.aborted == s.aborted
      && s'.issued[Calls(t)] + Due(s', t) == s.issued[Calls(t)] + Due(s, t)
      && s'.issued[Aborts(t)] == s.issued[Aborts(t)] && s'.issued[Releases(t)] == s.issued[Releases(t)]
  {
  }

  // What others do is not asked for by `t`.
  lemma OthersAsk(s: State, step: Step, t: Thread)
    requires Enabled(s, step) && Mover(step) != Some(t)
    ensures var s' := Apply(s, step);
      && At(s', t) == At(s, t)
      && s'.issued[Calls(t)] == s.issued[Calls(t)]
      && s'.issued[Aborts(t)] == s.issued[Aborts(t)] && s'.issued[Releases(t)] == s.issued[Releases(t)]
  {
    OthersStay(s, step);
    IssuedByMover(s, step);
  }

  lemma IssuedByMover(s: State, step: Step)
    requires Enabled(s, step)
    ensures Apply(s, step).issued == s.issued
      || (Mover(step).Some? && exists r: Request | r.t == Mover(step).value :: Apply(s, step).issued == s.issued + multiset{r})
  {
    var s' := Apply(s, step);
    match step {
      case CallIssue(t) => assert s'.issued == s.issued + multiset{Calls(t)};
      case AbortIssue(t) => assert s'.issued == s.issued || s'.issued == s.issued + multiset{Aborts(t)};
      case DropRelease(t) => assert s'.issued == s.issued + multiset{Releases(t)};
      case _ => assert s'.issued == s.issued;
    }
  }

  lemma StorerWrites(s: State, step: Step)
    requires LockInv(s) && Enabled(s, step)
    ensures Apply(s, step).aborted == s.aborted || s.writer.Some?
  {
    if step.AbortStore? {
      assert Writes(At(s, step.t));
    }
  }

  lemma ReadersHoldTheFlag(s: State, step: Step, t: Thread)
    requires LockInv(s) && Enabled(s, step) && Reads(At(s, t))
    ensures Apply(s, step).aborted == s.aborted
  {
    StorerWrites(s, step);
    assert t in s.readers;
  }

  lemma {:induction false} CallEnds(s: State, steps: seq<Step>, s': State, t: Thread)
    requires Inv(s) && Reads(At(s, t)) && Run(s, steps, s') && EndsWith(steps, CallUnlock(t))
    ensures At(s', t) == Holding && s'.aborted == s.aborted
    ensures s'.issued[Calls(t)] == s.issued[Calls(t)] + Due(s, t)
    ensures s'.issued[Aborts(t)] == s.issued[Aborts(t)] && s'.issued[Releases(t)] == s.issued[Releases(t)]
    decreases |steps|
  {
    var next := Apply(s, steps[0]);
    if |steps| == 1 {
      assert steps[1..] == [];
    } else {
      assert steps[0] != CallUnlock(t);
      InvKept(s, steps[0]);
      CallStep(s, steps[0], t);
      Shorter(steps, CallUnlock(t));
      CallEnds(next, steps[1..], s', t);
    }
  }

  lemma Shorter(steps: seq<Step>, last: Step)
    requires EndsWith(steps, last) && |steps| > 1
    ensures EndsWith(steps[1..], last)
  {
  }

  // A call, from the taking of the read lock to its giving back, whatever else happens
  // meanwhile: the flag stays as it was, and the engine is asked once if and only if the
  // flag was down.
  lemma CallIssuesOnce(s0: State, before: seq<Step>, s: State, t: Thread, steps: seq<Step>, s': State)
    requires Initial(s0) && Run(s0, before, s)
    requires steps != [] && steps[0] == CallLock(t) && Run(s, steps, s') && EndsWith(steps, CallUnlock(t))
    ensures At(s', t) == Holding && s'.aborted == s.aborted
    ensures s'.issued[Calls(t)] == s.issued[Calls(t)] + One(!s.aborted)
    ensures s'.issued[Aborts(t)] == s.issued[Aborts(t)] && s'.issued[Releases(t)] == s.issued[Releases(t)]
  {
    Reachable(s0, before, s);
    InvKept(s, CallLock(t));
    CallBegins(s, t);
    Shorter(steps, CallUnlock(t));
    CallEnds(Apply(s, CallLock(t)), steps[1..], s', t);
  }

  lemma AbortBegins(s: State, t: Thread)
    requires Enabled(s, AbortLock(t))
    ensures var next := Apply(s, AbortLock(t));
      Writes(At(next, t)) && Due(next, t) == One(!s.aborted) && next.aborted == s.aborted && next.issued == s.issued && next.releases == s.releases
  {
  }

  lemma AbortStep(s: State, step: Step, t: Thread)
    requires Inv(s) && Enabled(s, step) && Writes(At(s, t)) && step != AbortUnlock(t)
    ensures var s' := Apply(s, step);
      && Writes(At(s', t))
      && s'.issued[Aborts(t)] + Due(s', t) == s.issued[Aborts(t)] + Due(s, t)
      && s'.releases + Due(s', t) == s.releases + Due(s, t)
      && s'.issued[Calls(t)] == s.issued[Calls(t)] && s'.issued[Releases(t)] == s.issued[Releases(t)]
  {
    if Mover(step) == Some(t) {
      AbortersStep(s, step, t);
    } else {
      OthersAsk(s, step, t);
      WriterReleasesAlone(s, step, t);
    }
  }

  lemma AbortersStep(s: State, step: Step, t: Thread)
    requires Enabled(s, step) && Mover(step) == Some(t) && Writes(At(s, t)) && step != AbortUnlock(t)
    ensures var s' := Apply(s, step);
      && Writes(At(s', t))
      && s'.issued[Aborts(t)] + Due(s', t) == s.issued[Aborts(t)] + Due(s, t)
      && s'.releases + Due(s', t) == s.releases + Due(s, t)
      && s'.issued[Calls(t)] == s.issued[Calls(t)] && s'.issued[Releases(t)] == s.issued[Releases(t)]
  {
  }

  lemma ReleaserIsThere(s: State, step: Step)
    requires LockInv(s) && Enabled(s, step)
    ensures Apply(s, step).releases == s.releases || WindowOpen(s)
      || (Mover(step).Some? && s.writer == Some(User(Mover(step).value)))
  {
    if step.AbortIssue? {
      assert Writes(At(s, step.t));
    } else if step.DropRelease? {
      assert InDropWindow(At(s, step.t));
    }
  }

  lemma WriterReleasesAlone(s: State, step: Step, t: Thread)
    requires Inv(s) && Enabled(s, step) && Writes(At(s, t)) && Mover(step) != Some(t)
    ensures Apply(s, step).releases == s.releases
  {
    ReleaserIsThere(s, step);
    assert s.writer == Some(User(t)) && OwnsClone(At(s, t));
  }

  lemma {:induction false} AbortEnds(s: State, steps: seq<Step>, s': State, t: Thread)
    requires Inv(s) && Writes(At(s, t)) && Run(s, steps, s') && EndsWith(steps, AbortUnlock(t))
    ensures At(s', t) == Leaving && s'.aborted
    ensures s'.issued[Aborts(t)] == s.issued[Aborts(t)] + Due(s, t) && s'.releases == s.releases + Due(s, t)
    ensures s'.issued[Calls(t)] == s.issued[Calls(t)] && s'.issued[Releases(t)] == s.issued[Releases(t)]
    decreases |steps|
  {
    var next := Apply(s, steps[0]);
    if |steps| == 1 {
      assert steps[1..] == [];
    } else {
      assert steps[0] != AbortUnlock(t);
      InvKept(s, steps[0]);
      AbortStep(s, steps[0], t);
      Shorter(steps, AbortUnlock(t));
      AbortEnds(next, steps[1..], s', t);
    }
  }

  // An abort, from the taking of the write lock to its giving back: the flag is up, and
  // the function was released with mode abort once if and only if the flag was down.
  lemma AbortReleasesOnce(s0: State, before: seq<Step>, s: State, t: Thread, steps: seq<Step>, s': State)
    requires Initial(s0) && Run(s0, before, s)
    requires steps != [] && steps[0] == AbortLock(t) && Run(s, steps, s') && EndsWith(steps, AbortUnlock(t))
    ensures At(s', t) == Leaving && s'.aborted
    ensures s'.issued[Aborts(t)] == s.issued[Aborts(t)] + One(!s.aborted)
    ensures s'.releases == s.releases + One(!s.aborted)
    ensures s'.issued[Calls(t)] == s.issued[Calls(t)] && s'.issued[Releases(t)] == s.issued[Releases(t)]
  {
    Reachable(s0, before, s);
    InvKept(s, AbortLock(t));
    AbortBegins(s, t);
    assert steps[0] != AbortUnlock(t);
    Shorter(steps, AbortUnlock(t));
    AbortEnds(Apply(s, AbortLock(t)), steps[1..], s', t);
  }

  // What the drop of the last clone has still to release.
  function DropDue(s: State, t: Thread): nat {
    One(InDropWindow(At(s, t)) && s.raw && !s.aborted)
  }

  // Whoever takes a step owns a clone, but for the drop of the last one and the finalizer.
  lemma MoverOwns(s: State, step: Step)
    requires Enabled(s, step) && Mover(step).Some? && !step.DropRead? && !step.DropRelease?
    ensures Strong(s)
  {
    assert OwnsClone(At(s, if step.Clone? then step.t else Mover(step).value));
  }

  predicate OthersDone(s: State, t: Thread, u: Thread) {
    !OwnsClone(At(s, u)) && (InDropWindow(At(s, u)) ==> u == t)
  }

  lemma DropStepOfDropper(s: State, step: Step, t: Thread)
    requires Enabled(s, step) && !FinOwnsClone(s.fin) && (step.DropRead? || step.DropRelease?)
    requires (At(s, t) == DropIssuing ==> !s.aborted && s.raw) && forall u :: OthersDone(s, t, u)
    ensures var s' := Apply(s, step);
      && !FinOwnsClone(s'.fin) && (forall u :: OthersDone(s', t, u))
      && s'.aborted == s.aborted
      && s'.issued[Releases(t)] + DropDue(s', t) == s.issued[Releases(t)] + DropDue(s, t)
      && s'.releases + DropDue(s', t) == s.releases + DropDue(s, t)
      && s'.issued[Calls(t)] == s.issued[Calls(t)] && s'.issued[Aborts(t)] == s.issued[Aborts(t)]
  {
    OthersStay(s, step);
    assert OthersDone(s, t, step.t);
    forall u
      ensures OthersDone(Apply(s, step), t, u)
    {
      assert OthersDone(s, t, u);
    }
  }

  lemma DropStep(s: State, step: Step, t: Thread)
    requires Inv(s) && Enabled(s, step) && !Strong(s) && forall u :: InDropWindow(At(s, u)) ==> u == t
    ensures var s' := Apply(s, step);
      && !Strong(s') && (forall u :: InDropWindow(At(s', u)) ==> u == t)
      && s'.aborted == s.aborted
      && s'.issued[Releases(t)] + DropDue(s', t) == s.issued[Releases(t)] + DropDue(s, t)
      && s'.releases + DropDue(s', t) == s.releases + DropDue(s, t)
      && s'.issued[Calls(t)] == s.issued[Calls(t)] && s'.issued[Aborts(t)] == s.issued[Aborts(t)]
  {
    assert forall u :: OthersDone(s, t, u);
    if step.DropRead? || step.DropRelease? {
      DropStepOfDropper(s, step, t);
    } else {
      if Mover(step).Some? {
        MoverOwns(s, step);
      }
      FinalizerIsApart(s, step, t);
    }
    StillNobody(Apply(s, step), t);
  }

  lemma FinalizerIsApart(s: State, step: Step, t: Thread)
    requires Enabled(s, step) && Mover(step).None? && !Strong(s) && forall u :: OthersDone(s, t, u)
    ensures var s' := Apply(s, step);
      && !FinOwnsClone(s'.fin) && s'.pcs == s.pcs && s'.aborted == s.aborted && s'.raw == s.raw
      && s'.issued == s.issued && s'.releases == s.releases
    ensures forall u :: OthersDone(Apply(s, step), t, u)
  {
    forall u
      ensures OthersDone(Apply(s, step), t, u)
    {
      assert OthersDone(s, t, u);
    }
  }

  lemma StillNobody(s: State, t: Thread)
    requires !FinOwnsClone(s.fin) && forall u :: OthersDone(s, t, u)
    ensures !Strong(s) && forall u :: InDropWindow(At(s, u)) ==> u == t
  {
    forall u
      ensures !OwnsClone(At(s, u)) && (InDropWindow(At(s, u)) ==> u == t)
    {
      assert OthersDone(s, t, u);
    }
  }

  lemma {:induction false} DropEnds(s: State, steps: seq<Step>, s': State, t: Thread)
    requires Inv(s) && !Strong(s) && (forall u :: InDropWindow(At(s, u)) ==> u == t) && Run(s, steps, s')
    ensures s'.aborted == s.aborted
    ensures s'.issued[Releases(t)] + DropDue(s', t) == s.issued[Releases(t)] + DropDue(s, t)
    ensures s'.releases + DropDue(s', t) == s.releases + DropDue(s, t)
    ensures s'.issued[Calls(t)] == s.issued[Calls(t)] && s'.issued[Aborts(t)] == s.issued[Aborts(t)]
    decreases |steps|
  {
    if steps != [] {
      InvKept(s, steps[0]);
      DropStep(s, steps[0], t);
      DropEnds(Apply(s, steps[0]), steps[1..], s', t);
    }
  }

  lemma DropBegins(s: State, t: Thread)
    requires Enabled(s, DropLast(t)) && WindowInv(Apply(s, DropLast(t)))
    ensures var next := Apply(s, DropLast(t));
      && At(next, t) == Dropping && !Strong(next) && (forall u :: InDropWindow(At(next, u)) ==> u == t)
      && next.aborted == s.aborted && next.raw == s.raw && next.issued == s.issued && next.releases == s.releases
  {
    assert InDropWindow(At(Apply(s, DropLast(t)), t));
    assert WindowOpen(Apply(s, DropLast(t)));
  }

  // The drop of the last clone, once it is over: the function was released with mode
  // release once if and only if there is one and the flag was down.
  lemma LastDropReleasesOnce(s0: State, before: seq<Step>, s: State, t: Thread, steps: seq<Step>, s': State)
    requires Initial(s0) && Run(s0, before, s)
    requires steps != [] && steps[0] == DropLast(t) && Run(s, steps, s') && At(s', t) == NoHandle
    ensures s'.aborted == s.aborted
    ensures s'.issued[Releases(t)] == s.issued[Releases(t)] + One(s.raw && !s.aborted)
    ensures s'.releases == s.releases + One(s.raw && !s.aborted)
    ensures s'.issued[Calls(t)] == s.issued[Calls(t)] && s'.issued[Aborts(t)] == s.issued[Aborts(t)]
  {
    Reachable(s0, before, s);
    InvKept(s, DropLast(t));
    DropBegins(s, t);
    DropEnds(Apply(s, DropLast(t)), steps[1..], s', t);
  }

  // Clones come and go: a new one can be used at once and keeps the drop of the other from
  // being the last, and whoever drops one has none and leaves the handle to the rest.
  lemma ClonesComeAndGo(s: State, t: Thread, u: Thread)
    ensures Enabled(s, Clone(t, u)) ==>
      var s' := Apply(s, Clone(t, u));
      At(s', u) == Holding && At(s', t) == Holding && !Enabled(s', DropLast(t)) && !Enabled(s', DropLast(u))
    ensures Enabled(s, DropClone(t)) ==>
      var s' := Apply(s, DropClone(t));
      At(s', t) == NoHandle && Strong(s') && s'.releases == s.releases && s'.issued == s.issued
  {
    if Enabled(s, Clone(t, u)) {
      var s' := Apply(s, Clone(t, u));
      assert OwnsClone(At(s', u)) && OwnsClone(At(s', t)) && t != u;
    }
    if Enabled(s, DropClone(t)) && !FinOwnsClone(s.fin) {
      var v :| v != t && OwnsClone(At(s, v));
      assert OwnsClone(At(Apply(s, DropClone(t)), v));
    }
  }

  // ----- nobody is stuck

  ghost predicate LockIsFree(s: State) {
    (forall t :: !Writes(At(s, t))) && s.fin != FinStoring && s.fin != FinUnlocking
  }

  // In every reachable state a thread that owns a clone, or is in the drop of the last one,
  // can take a step; the lock is refused exactly while others hold it against it; and so
  // the finalizer waits for them alone.
  lemma NobodyIsStuck(s0: State, steps: seq<Step>, s: State, t: Thread)
    requires Initial(s0) && Run(s0, steps, s)
    ensures At(s, t) != NoHandle ==> exists step :: Mover(step) == Some(t) && !step.Clone? && Enabled(s, step)
    ensures At(s, t) == Holding ==>
      && (Enabled(s, CallLock(t)) <==> LockIsFree(s))
      && (Enabled(s, AbortLock(t)) <==> LockIsFree(s) && forall u :: !Reads(At(s, u)))
    ensures s.raw && s.fin != FinDone ==>
      s.fin == FinLocking || exists step :: Mover(step) == None && Enabled(s, step)
    ensures s.fin == FinLocking ==>
      (Enabled(s, FinLock) <==> forall u :: !Reads(At(s, u)) && !Writes(At(s, u)))
  {
    Reachable(s0, steps, s);
    if At(s, t) != NoHandle {
      OwnerCanMove(s, t);
    }
    LockIsGranted(s, t);
    if s.raw && s.fin != FinDone && s.fin != FinLocking {
      FinalizerCanMove(s);
    }
  }

  lemma OwnerCanMove(s: State, t: Thread)
    requires Inv(s) && At(s, t) != NoHandle
    ensures exists step :: Mover(step) == Some(t) && !step.Clone? && Enabled(s, step)
  {
    if At(s, t) == Dropping {
      NobodyHoldsLock(s, t);
    }
    var step := match At(s, t)
      case CallLocked => CallRead(t)
      case CallIssuing => CallIssue(t)
      case CallReturning => CallUnlock(t)
      case AbortLocked => AbortIssue(t)
      case AbortReleased => AbortStore(t)
      case AbortUnlocking => AbortUnlock(t)
      case Dropping => DropRead(t)
      case DropIssuing => DropRelease(t)
      case _ => if SomeoneElseOwns(s, t) then DropClone(t) else DropLast(t);
    assert Mover(step) == Some(t) && !step.Clone? && Enabled(s, step);
  }

  lemma LockIsExact(s: State)
    requires LockInv(s)
    ensures s.writer == None <==> LockIsFree(s)
    ensures s.readers == {} <==> forall u :: !Reads(At(s, u))
  {
    if s.writer != None {
      match s.writer.value {
        case User(u) => assert Writes(At(s, u));
        case Finalizer =>
      }
    }
    if s.readers != {} {
      var u :| u in s.readers;
      assert Reads(At(s, u));
    }
  }

  lemma LockIsGranted(s: State, t: Thread)
    requires LockInv(s)
    ensures At(s, t) == Holding ==>
      && (Enabled(s, CallLock(t)) <==> LockIsFree(s))
      && (Enabled(s, AbortLock(t)) <==> LockIsFree(s) && forall u :: !Reads(At(s, u)))
    ensures s.fin == FinLocking ==>
      (Enabled(s, FinLock) <==> forall u :: !Reads(At(s, u)) && !Writes(At(s, u)))
  {
    LockIsExact(s);
  }

  lemma FinalizerCanMove(s: State)
    requires s.raw && s.fin != FinDone && s.fin != FinLocking
    ensures exists step :: Mover(step) == None && Enabled(s, step)
  {
    var step := match s.fin
      case FinIdle => FinStart
      case FinUpgrade => FinTryUpgrade
      case FinStoring => FinStore
      case FinUnlocking => FinUnlock
      case FinDropArc => FinDropClone
      case _ => FinFreeBox;
    assert Mover(step) == None && Enabled(s, step);
  }
}
