/**
 The payloads of a threadsafe function: boxed by `call*`, queued by the engine, unboxed
 and executed on the JS thread by `call_js_cb`.

 `CallQueue` holds the mutable state and follows the source statement by statement.
 `Settle` says in closed form what one dispatch leaves in the record of one payload, and
 `EveryPayload` says what every run of calls and dispatches leaves in all of them.
 */
module TsfnDispatch {
  import opened Sequences

  // What was boxed.
  datatype Body =
    | ErrValue(async: bool) // an `Err` value; the mapping closure, and with it a sender, is dropped unused
    | AsyncCall             // `call_async`: the callback owns the sender
    | UserCallback          // `call_with_return_value`
    | DirectCall            // `call`: the no-op callback

  datatype Status = Success | PendingException | Failure

  // Everything one dispatch learns from the engine and from user code.
  datatype Env = Env(
    live: bool,          // neither the env nor the JS callback is null
    converted: bool,     // the context callback and `into_vec` both returned `Ok`
    callStatus: Status,  // of `napi_call_function`
    refMade: bool,       // `napi_create_reference` on the cleared exception succeeded
    described: bool,     // message and stack of the cleared exception could be read
    returned: bool,      // `Return::from_napi_value` succeeded
    leaves: bool,        // reading what was thrown or returned, or the closure, left an exception pending
    userOk: bool,        // a user closure returned `Ok`
    fatalStatus: Status, // of `napi_fatal_exception` when it reports a conversion error
    errorBuilt: bool     // the error object for a failure without exception could be built
  )

  datatype Fate = Refused | Queued | Dispatched(env: Env)

  // Arguments of the JS function: null and the values, the values, or the error alone.
  datatype Args = ErrorFirst | Values | ErrorOnly

  datatype Outcome = Value | JsError | SenderDropped

  // What a callback closure is given: the value the function returned, the exception it
  // threw as an error, the error of reading that exception's message in its stead, or the
  // error of converting the value.
  datatype ClosureArg = GotValue | GotException | GotMessageError | GotConversionError

  // The record of one payload.
  datatype Entry = Entry(
    body: Body,
    fate: Fate,
    unboxed: nat,           // times the box was turned back into a value
    ran: nat,               // times the callback closure ran
    given: seq<ClosureArg>, // with what
    outcomes: seq<Outcome>, // what a receiver awaiting this payload has seen
    jsCalls: seq<Args>,     // calls of the JS function
    cleared: nat,           // pending exceptions taken from the env
    fatals: nat,            // calls of `napi_fatal_exception`
    leaks: nat,             // references made to an exception and then held by nothing
    left: nat               // exceptions pending when `call_js_cb` returned
  )

  predicate WithCallback(body: Body) {
    body.AsyncCall? || body.UserCallback?
  }

  // A payload is awaited when `call_async` boxed it.
  predicate Awaited(body: Body) {
    body.AsyncCall? || (body.ErrValue? && body.async)
  }

  function Boxed(body: Body, accepted: bool): Entry {
    Entry(body, if accepted then Queued else Refused, 0, 0, [],
          if body.ErrValue? && body.async then [SenderDropped] else [], [], 0, 0, 0, 0)
  }

  // Arguments for the JS function came out of the payload.
  predicate Produced(body: Body, env: Env) {
    env.live && !body.ErrValue? && env.converted
  }

  function One(b: bool): nat {
    if b then 1 else 0
  }

  function OutcomesOf(body: Body, calleeHandled: bool, env: Env): seq<Outcome> {
    if !body.AsyncCall? || !env.live then []
    else if !env.converted then [SenderDropped]
    else if env.callStatus != PendingException && env.returned then [Value]
    else if calleeHandled then [JsError]
    else [SenderDropped]
  }

  function ArgOf(env: Env): ClosureArg {
    if env.callStatus == PendingException then
      if env.described then GotException else GotMessageError
    else if env.returned then GotValue
    else GotConversionError
  }

  // The result of the callback closure: a user's own, or that of the sender `call_async` boxes.
  predicate ClosureOk(body: Body, calleeHandled: bool, env: Env) {
    if body.UserCallback? then env.userOk
    else calleeHandled || (env.callStatus != PendingException && env.returned)
  }

  // The reference to a thrown exception is lost with the error it was made for.
  predicate Leaks(env: Env) {
    env.callStatus == PendingException && env.refMade && !env.described
  }

  // An exception that came up after the call is nobody's business: the status is by then
  // that of another call.
  predicate LeavesPending(body: Body, env: Env) {
    Produced(body, env) && WithCallback(body) && env.leaves
  }

  // What dispatching a queued payload amounts to.
  function Settle(e: Entry, calleeHandled: bool, env: Env): Entry {
    var produced := Produced(e.body, env);
    var runs := produced && WithCallback(e.body);
    var jsCalled := env.live && (produced || calleeHandled);
    var threw := env.live && (if jsCalled then env.callStatus else env.fatalStatus) == PendingException;
    // without an exception, the status that reaches the end of `call_js_cb` is a failure
    var failed := env.live &&
      if runs && threw then !env.refMade
      else (if jsCalled then env.callStatus else env.fatalStatus) == Failure;
    e.(fate := Dispatched(env),
       unboxed := e.unboxed + One(env.live),
       ran := e.ran + One(runs),
       given := e.given + (if runs then [ArgOf(env)] else []),
       outcomes := e.outcomes + OutcomesOf(e.body, calleeHandled, env),
       jsCalls := e.jsCalls +
         if !jsCalled then [] else if !produced then [ErrorOnly] else if calleeHandled then [ErrorFirst] else [Values],
       cleared := e.cleared + One(threw),
       fatals := e.fatals + One(runs && !ClosureOk(e.body, calleeHandled, env)) + One(env.live && !jsCalled)
         + One((threw && !runs) || (failed && env.errorBuilt)),
       leaks := e.leaks + One(runs && Leaks(env)),
       left := e.left + One(LeavesPending(e.body, env)))
  }

  class CallQueue {
    const calleeHandled: bool
    var ledger: seq<Entry>  // indexed by payload, in the order of boxing
    var queue: seq<nat>     // payloads the engine accepted and has not dispatched
    var pending: bool       // a JS exception is pending in the env

    constructor (calleeHandled: bool)
      ensures this.calleeHandled == calleeHandled && View() == State([], []) && !pending
    {
      this.calleeHandled := calleeHandled;
      ledger, queue, pending := [], [], false;
    }

    function View(): State
      reads this
    {
      State(ledger, queue)
    }

    // `call`, `call_with_return_value` and `call_async` up to the answer of the engine.
    method Call(body: Body, aborted: bool, accepted: bool) returns (closing: bool)
      modifies this
      ensures closing == aborted
      ensures View() == if aborted then old(View()) else ApplyCall(old(View()), body, accepted)
      ensures pending == old(pending)
    {
      if aborted {
        return true;
      }
      ledger := ledger + [Boxed(body, accepted)];
      if accepted {
        queue := queue + [|ledger| - 1];
      }
      return false;
    }

    // `call_js_cb` on the payload at position `i` of the engine's queue. The engine takes
    // what one dispatch leaves pending before it begins another.
    method CallJsCb(i: nat, env: Env)
      requires i < |queue| && queue[i] < |ledger| && !pending
      modifies this
      ensures View() == ApplyDispatch(old(View()), calleeHandled, i, env)
      ensures pending <==> LeavesPending(old(ledger[queue[i]]).body, env)
    {
      var e := Execute(ledger[queue[i]], env);
      ledger := ledger[queue[i] := e];
      queue := queue[..i] + queue[i + 1..];
    }

    // The record of the payload after `call_js_cb`.
    method Execute(e0: Entry, env: Env) returns (e: Entry)
      requires !pending
      modifies this`pending
      ensures e == Settle(e0, calleeHandled, env)
      ensures pending <==> LeavesPending(e0.body, env)
    {
      e := e0.(fate := Dispatched(env));
      if env.live {
        e := e.(unboxed := e.unboxed + 1);
        var status;
        if !e.body.ErrValue? && env.converted {
          e, status := PassValues(e, env);
        } else {
          e, status := PassError(e, env);
        }
        ghost var passed := e;
        e := HandleStatus(e, status, env);
        e := e.(left := e.left + if pending then 1 else 0);
        if Produced(e0.body, env) {
          ValuesSettle(e0, calleeHandled, env, passed, status, e);
        } else {
          ErrorSettles(e0, calleeHandled, env, passed, status, e);
        }
      } else {
        DeadSettles(e0, calleeHandled, env);
      }
    }

    // The `Ok` arm: call the function, then hand what came of it to the callback.
    method PassValues(e0: Entry, env: Env) returns (e: Entry, status: Status)
      requires Produced(e0.body, env) && !pending
      modifies this`pending
      ensures var runs := WithCallback(e0.body);
        && status == (if runs && env.callStatus == PendingException then (if env.refMade then Success else Failure)
                      else env.callStatus)
        && (pending <==> status == PendingException || (runs && env.leaves))
        && e == e0.(jsCalls := e0.jsCalls + [if calleeHandled then ErrorFirst else Values],
                    cleared := e0.cleared + One(runs && env.callStatus == PendingException),
                    leaks := e0.leaks + One(runs && Leaks(env)),
                    ran := e0.ran + One(runs),
                    given := e0.given + (if runs then [ArgOf(env)] else []),
                    outcomes := e0.outcomes + OutcomesOf(e0.body, calleeHandled, env),
                    fatals := e0.fatals + One(runs && !ClosureOk(e0.body, calleeHandled, env)))
    {
      e := e0.(jsCalls := e0.jsCalls + [if calleeHandled then ErrorFirst else Values]);
      status := env.callStatus;
      pending := status == PendingException;
      assert e.outcomes + [] == e.outcomes && e.given + [] == e.given;
      if WithCallback(e.body) {
        var arg := if env.returned then GotValue else GotConversionError;
        if status == PendingException {
          pending := false;
          e := e.(cleared := e.cleared + 1);
          status := if env.refMade then Success else Failure;
          if env.described {
            arg := GotException;
          } else {
            arg := GotMessageError;
            e := e.(leaks := e.leaks + if env.refMade then 1 else 0);
          }
        }
        e := e.(ran := e.ran + 1, given := e.given + [arg]);
        var closureOk := env.userOk;
        if e.body.AsyncCall? {
          e, closureOk := RunSender(e, arg == GotValue);
        }
        if !closureOk {
          e := e.(fatals := e.fatals + 1);
        }
        pending := env.leaves;
      }
    }

    // The two `Err` arms: no values came out, so the callback is dropped without having
    // run, and the error goes to the function or, for an unhandled callee, to the engine.
    method PassError(e0: Entry, env: Env) returns (e: Entry, status: Status)
      requires !pending
      modifies this`pending
      ensures status == (if calleeHandled then env.callStatus else env.fatalStatus)
      ensures pending == (status == PendingException)
      ensures e == e0.(outcomes := e0.outcomes + if e0.body.AsyncCall? then [SenderDropped] else [],
                       jsCalls := e0.jsCalls + if calleeHandled then [ErrorOnly] else [],
                       fatals := e0.fatals + One(!calleeHandled))
    {
      e := e0;
      assert e.outcomes + [] == e.outcomes && e.jsCalls + [] == e.jsCalls;
      if e.body.AsyncCall? {
        e := e.(outcomes := e.outcomes + [SenderDropped]);
      }
      if calleeHandled {
        e := e.(jsCalls := e.jsCalls + [ErrorOnly]);
        status := env.callStatus;
      } else {
        e := e.(fatals := e.fatals + 1);
        status := env.fatalStatus;
      }
      pending := status == PendingException;
    }

    // The closure `call_async` boxes: with a handled callee it sends the `Result` as it
    // is, otherwise only a value, and an error drops the sender.
    method RunSender(e: Entry, argOk: bool) returns (e': Entry, closureOk: bool)
      ensures closureOk == (calleeHandled || argOk)
      ensures e' == e.(outcomes := e.outcomes + [if argOk then Value else if calleeHandled then JsError else SenderDropped])
    {
      if calleeHandled {
        return e.(outcomes := e.outcomes + [if argOk then Value else JsError]), true;
      }
      return e.(outcomes := e.outcomes + [if argOk then Value else SenderDropped]), argOk;
    }

    // `handle_call_js_cb_status`
    method HandleStatus(e: Entry, status: Status, env: Env) returns (e': Entry)
      requires status == PendingException ==> pending
      modifies this`pending
      ensures pending <==> old(pending) && status != PendingException
      ensures e' == e.(cleared := e.cleared + One(status == PendingException),
                       fatals := e.fatals + One(status == PendingException || (status == Failure && env.errorBuilt)))
    {
      match status {
        case Success =>
          return e;
        case PendingException =>
          pending := false;
          return e.(cleared := e.cleared + 1, fatals := e.fatals + 1);
        case Failure =>
          if !env.errorBuilt {
            return e;
          }
          return e.(fatals := e.fatals + 1);
      }
    }
  }

  // What is left of a record by the handling of the last status.
  predicate Handled(passed: Entry, status: Status, env: Env, left: bool, e: Entry) {
    e == passed.(cleared := passed.cleared + One(status == PendingException),
                 fatals := passed.fatals + One(status == PendingException || (status == Failure && env.errorBuilt)),
                 left := passed.left + One(left))
  }

  lemma ValuesSettle(e0: Entry, calleeHandled: bool, env: Env, passed: Entry, status: Status, e: Entry)
    requires Produced(e0.body, env)
    requires var runs := WithCallback(e0.body);
      && status == (if runs && env.callStatus == PendingException then (if env.refMade then Success else Failure)
                    else env.callStatus)
      && passed == e0.(fate := Dispatched(env), unboxed := e0.unboxed + 1,
                       jsCalls := e0.jsCalls + [if calleeHandled then ErrorFirst else Values],
                       cleared := e0.cleared + One(runs && env.callStatus == PendingException),
                       leaks := e0.leaks + One(runs && Leaks(env)),
                       ran := e0.ran + One(runs),
                       given := e0.given + (if runs then [ArgOf(env)] else []),
                       outcomes := e0.outcomes + OutcomesOf(e0.body, calleeHandled, env),
                       fatals := e0.fatals + One(runs && !ClosureOk(e0.body, calleeHandled, env)))
      && Handled(passed, status, env, runs && env.leaves, e)
    ensures e == Settle(e0, calleeHandled, env)
  {
  }

  lemma ErrorSettles(e0: Entry, calleeHandled: bool, env: Env, passed: Entry, status: Status, e: Entry)
    requires env.live && !Produced(e0.body, env)
    requires status == if calleeHandled then env.callStatus else env.fatalStatus
    requires passed == e0.(fate := Dispatched(env), unboxed := e0.unboxed + 1,
                           outcomes := e0.outcomes + (if e0.body.AsyncCall? then [SenderDropped] else []),
                           jsCalls := e0.jsCalls + (if calleeHandled then [ErrorOnly] else []),
                           fatals := e0.fatals + One(!calleeHandled))
    requires Handled(passed, status, env, false, e)
    ensures e == Settle(e0, calleeHandled, env)
  {
    assert e0.given + [] == e0.given && e0.outcomes + [] == e0.outcomes && e0.jsCalls + [] == e0.jsCalls;
  }

  // With a dead env a payload is only taken off the queue.
  lemma DeadSettles(e0: Entry, calleeHandled: bool, env: Env)
    requires !env.live
    ensures Settle(e0, calleeHandled, env) == e0.(fate := Dispatched(env))
  {
    assert e0.given + [] == e0.given && e0.outcomes + [] == e0.outcomes && e0.jsCalls + [] == e0.jsCalls;
  }

  // ----- every run

  datatype State = State(ledger: seq<Entry>, queue: seq<nat>)

  datatype Event = Called(body: Body, accepted: bool) | Dispatch(i: nat, env: Env)

  function ApplyCall(s: State, body: Body, accepted: bool): State {
    State(s.ledger + [Boxed(body, accepted)], if accepted then s.queue + [|s.ledger|] else s.queue)
  }

  function ApplyDispatch(s: State, calleeHandled: bool, i: nat, env: Env): State
    requires i < |s.queue| && s.queue[i] < |s.ledger|
  {
    var id := s.queue[i];
    State(s.ledger[id := Settle(s.ledger[id], calleeHandled, env)], s.queue[..i] + s.queue[i + 1..])
  }

  predicate Enabled(s: State, calleeHandled: bool, event: Event) {
    match event
    // only a handled callee takes a `Result`
    case Called(body, _) => body.ErrValue? ==> calleeHandled
    // the engine may serve a higher priority first
    case Dispatch(i, _) => i < |s.queue| && s.queue[i] < |s.ledger|
  }

  function Apply(s: State, calleeHandled: bool, event: Event): State
    requires Enabled(s, calleeHandled, event)
  {
    match event
    case Called(body, accepted) => ApplyCall(s, body, accepted)
    case Dispatch(i, env) => ApplyDispatch(s, calleeHandled, i, env)
  }

  ghost predicate Run(s: State, calleeHandled: bool, events: seq<Event>, s': State)
    decreases |events|
  {
    if events == [] then s == s'
    else Enabled(s, calleeHandled, events[0]) && Run(Apply(s, calleeHandled, events[0]), calleeHandled, events[1..], s')
  }

  predicate EntryInv(e: Entry, calleeHandled: bool) {
    && (e.body.ErrValue? ==> calleeHandled)
    && match e.fate
       case Refused => e == Boxed(e.body, false)
       case Queued => e == Boxed(e.body, true)
       case Dispatched(env) => e == Settle(Boxed(e.body, true), calleeHandled, env)
  }

  ghost predicate Inv(s: State, calleeHandled: bool) {
    && (forall id | 0 <= id < |s.ledger| :: EntryInv(s.ledger[id], calleeHandled))
    && Distinct(s.queue)
    && (forall i | 0 <= i < |s.queue| :: s.queue[i] < |s.ledger|)
    && (forall id | 0 <= id < |s.ledger| :: id in s.queue <==> s.ledger[id].fate == Queued)
  }

  lemma CallKeepsInv(s: State, calleeHandled: bool, body: Body, accepted: bool)
    requires Inv(s, calleeHandled) && (body.ErrValue? ==> calleeHandled)
    ensures Inv(ApplyCall(s, body, accepted), calleeHandled)
  {
    var s' := ApplyCall(s, body, accepted);
    assert accepted ==> s'.queue[|s.queue|] == |s.ledger|;
    assert |s.ledger| !in s.queue;
    assert forall id: nat :: id in s'.queue <==> id in s.queue || (accepted && id == |s.ledger|);
  }

  lemma RemovedAt(q: seq<nat>, i: nat)
    requires Distinct(q) && i < |q|
    ensures var q' := q[..i] + q[i + 1..]; Distinct(q') && forall x :: x in q' <==> x in q && x != q[i]
  {
    var q' := q[..i] + q[i + 1..];
    forall x: nat | x in q && x != q[i] ensures x in q' {
      var j :| 0 <= j < |q| && q[j] == x;
      assert q'[if j < i then j else j - 1] == x;
    }
    assert forall k | 0 <= k < |q'| :: q'[k] == q[if k < i then k else k + 1];
  }

  lemma DispatchKeepsInv(s: State, calleeHandled: bool, i: nat, env: Env)
    requires Inv(s, calleeHandled) && i < |s.queue|
    ensures Inv(ApplyDispatch(s, calleeHandled, i, env), calleeHandled)
  {
    SettledInv(s.ledger[s.queue[i]], calleeHandled, env);
    RemovedAt(s.queue, i);
  }

  lemma SettledInv(e: Entry, calleeHandled: bool, env: Env)
    requires EntryInv(e, calleeHandled) && e.fate == Queued
    ensures EntryInv(Settle(e, calleeHandled, env), calleeHandled)
    ensures Settle(e, calleeHandled, env).fate.Dispatched?
  {
  }

  lemma {:induction false} RunKeepsInv(s: State, calleeHandled: bool, events: seq<Event>, s': State)
    requires Inv(s, calleeHandled) && Run(s, calleeHandled, events, s')
    ensures Inv(s', calleeHandled)
    decreases |events|
  {
    if events != [] {
      match events[0] {
        case Called(body, accepted) => CallKeepsInv(s, calleeHandled, body, accepted);
        case Dispatch(i, env) => DispatchKeepsInv(s, calleeHandled, i, env);
      }
      RunKeepsInv(Apply(s, calleeHandled, events[0]), calleeHandled, events[1..], s');
    }
  }

  // A payload the JS thread took with a live env and callback.
  predicate Taken(e: Entry) {
    e.fate.Dispatched? && e.fate.env.live
  }

  // Every payload, after any run: unboxed once if taken and never otherwise; its closure
  // run once if arguments were produced for it and never otherwise; the JS function called
  // once if there were arguments or an error to hand it; an awaiting receiver served
  // exactly once unless the payload is still queued, was refused, or met a dead env; and
  // only a closure's payload leaks a reference or leaves an exception behind.
  lemma EveryPayload(calleeHandled: bool, events: seq<Event>, s: State, id: nat)
    requires Run(State([], []), calleeHandled, events, s) && id < |s.ledger|
    ensures var e := s.ledger[id];
      && e.unboxed == One(Taken(e))
      && e.ran == |e.given| == One(Taken(e) && Produced(e.body, e.fate.env) && WithCallback(e.body))
      && (e.ran == 1 ==> e.given == [ArgOf(e.fate.env)])
      && |e.jsCalls| == One(Taken(e) && (calleeHandled || Produced(e.body, e.fate.env)))
      && |e.outcomes| == One(Awaited(e.body) && (Taken(e) || e.body.ErrValue?))
      && e.leaks == One(e.ran == 1 && Leaks(e.fate.env))
      && e.left == One(e.ran == 1 && e.fate.env.leaves)
      && (e.fate == Queued <==> id in s.queue)
  {
    RunKeepsInv(State([], []), calleeHandled, events, s);
    assert EntryInv(s.ledger[id], calleeHandled);
  }

  lemma DispatchedIsSettled(calleeHandled: bool, events: seq<Event>, s: State, id: nat)
    requires Run(State([], []), calleeHandled, events, s) && id < |s.ledger| && s.ledger[id].fate.Dispatched?
    ensures var e := s.ledger[id];
      (e.body.ErrValue? ==> calleeHandled) && e == Settle(Boxed(e.body, true), calleeHandled, e.fate.env)
  {
    RunKeepsInv(State([], []), calleeHandled, events, s);
    assert EntryInv(s.ledger[id], calleeHandled);
  }

  lemma OnlyOne<T>(x: T, y: T)
    ensures [] + [x] == [x] && [x] != [] && ([x] == [y] <==> x == y)
  {
    assert [x][0] == x && [y][0] == y;
  }

  lemma SettledArguments(body: Body, calleeHandled: bool, env: Env, args: Args)
    ensures var jsCalls := Settle(Boxed(body, true), calleeHandled, env).jsCalls;
      var values := env.live && env.converted && !body.ErrValue?;
      && (jsCalls == [] <==> !env.live || (!values && !calleeHandled))
      && (jsCalls == [args] <==>
            && env.live && (values || calleeHandled)
            && args == if values then (if calleeHandled then ErrorFirst else Values) else ErrorOnly)
  {
    OnlyOne(ErrorFirst, args);
    OnlyOne(Values, args);
    OnlyOne(ErrorOnly, args);
  }

  // The arguments of the JS function: the values, after a null for a handled callee; the
  // error alone where no values came out and the callee handles it.
  lemma ArgumentsExactly(calleeHandled: bool, events: seq<Event>, s: State, id: nat)
    requires Run(State([], []), calleeHandled, events, s) && id < |s.ledger| && s.ledger[id].fate.Dispatched?
    ensures var e, env := s.ledger[id], s.ledger[id].fate.env;
      var values := env.live && env.converted && !e.body.ErrValue?;
      && (e.jsCalls == [ErrorFirst] <==> values && calleeHandled)
      && (e.jsCalls == [Values] <==> values && !calleeHandled)
      && (e.jsCalls == [ErrorOnly] <==> env.live && !values && calleeHandled)
      && (e.jsCalls == [] <==> !env.live || (!values && !calleeHandled))
  {
    DispatchedIsSettled(calleeHandled, events, s, id);
    SettledArguments(s.ledger[id].body, calleeHandled, s.ledger[id].fate.env, ErrorFirst);
    SettledArguments(s.ledger[id].body, calleeHandled, s.ledger[id].fate.env, Values);
    SettledArguments(s.ledger[id].body, calleeHandled, s.ledger[id].fate.env, ErrorOnly);
  }

  lemma SettledGiven(body: Body, calleeHandled: bool, env: Env, arg: ClosureArg)
    ensures var given := Settle(Boxed(body, true), calleeHandled, env).given;
      given == [arg]
      <==> env.live && env.converted && (body.AsyncCall? || body.UserCallback?)
           && arg == if env.callStatus == PendingException then
                (if env.described then GotException else GotMessageError)
              else if env.returned then GotValue else GotConversionError
  {
    OnlyOne(ArgOf(env), arg);
  }

  // What the closure is given: the value if and only if the function returned one that
  // converts; otherwise the exception, the error of reading that, or of converting.
  lemma GivenExactly(calleeHandled: bool, events: seq<Event>, s: State, id: nat)
    requires Run(State([], []), calleeHandled, events, s) && id < |s.ledger| && s.ledger[id].fate.Dispatched?
    ensures var e, env := s.ledger[id], s.ledger[id].fate.env;
      var closure := env.live && env.converted && (e.body.AsyncCall? || e.body.UserCallback?);
      var threw := env.callStatus == PendingException;
      && (e.given == [GotValue] <==> closure && !threw && env.returned)
      && (e.given == [GotConversionError] <==> closure && !threw && !env.returned)
      && (e.given == [GotException] <==> closure && threw && env.described)
      && (e.given == [GotMessageError] <==> closure && threw && !env.described)
  {
    var e := s.ledger[id];
    DispatchedIsSettled(calleeHandled, events, s, id);
    SettledGiven(e.body, calleeHandled, e.fate.env, GotValue);
    SettledGiven(e.body, calleeHandled, e.fate.env, GotConversionError);
    SettledGiven(e.body, calleeHandled, e.fate.env, GotException);
    SettledGiven(e.body, calleeHandled, e.fate.env, GotMessageError);
  }

  lemma SettledOutcome(body: Body, calleeHandled: bool, env: Env, o: Outcome)
    requires body.ErrValue? ==> calleeHandled
    ensures var outcomes := Settle(Boxed(body, true), calleeHandled, env).outcomes;
      var good := env.converted && env.callStatus != PendingException && env.returned;
      outcomes == [o] <==>
        if body.AsyncCall? then
          env.live && o == if good then Value else if env.converted && calleeHandled then JsError else SenderDropped
        else body.ErrValue? && body.async && o == SenderDropped
  {
    OnlyOne(Value, o);
    OnlyOne(JsError, o);
    OnlyOne(SenderDropped, o);
    assert [SenderDropped] + [] == [SenderDropped];
  }

  // What a receiver gets: the value under the same condition, an error from a handled callee
  // only, and otherwise the end of its sender.
  lemma OutcomeExactly(calleeHandled: bool, events: seq<Event>, s: State, id: nat)
    requires Run(State([], []), calleeHandled, events, s) && id < |s.ledger| && s.ledger[id].fate.Dispatched?
    ensures var e, env := s.ledger[id], s.ledger[id].fate.env;
      var good := env.converted && env.callStatus != PendingException && env.returned;
      && (e.outcomes == [Value] <==> e.body.AsyncCall? && env.live && good)
      && (e.outcomes == [JsError] <==> e.body.AsyncCall? && env.live && env.converted && !good && calleeHandled)
      && (e.outcomes == [SenderDropped] <==>
            || (e.body.ErrValue? && e.body.async)
            || (e.body.AsyncCall? && env.live && !good && (!env.converted || !calleeHandled)))
  {
    var e := s.ledger[id];
    DispatchedIsSettled(calleeHandled, events, s, id);
    SettledOutcome(e.body, calleeHandled, e.fate.env, Value);
    SettledOutcome(e.body, calleeHandled, e.fate.env, JsError);
    SettledOutcome(e.body, calleeHandled, e.fate.env, SenderDropped);
  }

  // A payload that has not been dispatched has done nothing, but that the sender of an
  // awaited error is gone.
  lemma UndispatchedDidNothing(calleeHandled: bool, events: seq<Event>, s: State, id: nat)
    requires Run(State([], []), calleeHandled, events, s) && id < |s.ledger| && !s.ledger[id].fate.Dispatched?
    ensures var e := s.ledger[id];
      && e.unboxed == e.ran == e.cleared == e.fatals == e.leaks == e.left == 0 && e.given == [] && e.jsCalls == []
      && e.outcomes == if e.body.ErrValue? && e.body.async then [SenderDropped] else []
  {
    RunKeepsInv(State([], []), calleeHandled, events, s);
    assert EntryInv(s.ledger[id], calleeHandled);
  }

  // The engine hears of: a closure that failed, an error no function takes, an exception no
  // closure takes, and a failure of the last call if its error can be built.
  lemma ReportsExactly(calleeHandled: bool, events: seq<Event>, s: State, id: nat)
    requires Run(State([], []), calleeHandled, events, s) && id < |s.ledger| && s.ledger[id].fate.Dispatched?
    ensures var e, env := s.ledger[id], s.ledger[id].fate.env;
      var good := env.callStatus != PendingException && env.returned;
      e.fatals == if e.jsCalls == [] then
          if !env.live then 0
          else 1 + One(env.fatalStatus == PendingException || (env.fatalStatus == Failure && env.errorBuilt))
        else if e.ran == 0 then
          One(env.callStatus == PendingException || (env.callStatus == Failure && env.errorBuilt))
        else
          One(if e.body.UserCallback? then !env.userOk else !calleeHandled && !good)
          + One(env.errorBuilt
                && (env.callStatus == Failure || (env.callStatus == PendingException && !env.refMade)))
  {
    RunKeepsInv(State([], []), calleeHandled, events, s);
    assert EntryInv(s.ledger[id], calleeHandled);
  }

  // An exception thrown by the JS function is taken from the env once. Without a closure it
  // goes to the engine. A closure is given it as an error if and only if its message can be
  // read; if not, the closure is given the error of reading it, and the reference made to
  // the exception, if there is one, is lost.
  lemma ThrownExceptionExactly(calleeHandled: bool, events: seq<Event>, s: State, id: nat)
    requires Run(State([], []), calleeHandled, events, s) && id < |s.ledger|
    requires s.ledger[id].jsCalls != [] && s.ledger[id].fate.Dispatched? && s.ledger[id].fate.env.callStatus == PendingException
    ensures var e := s.ledger[id];
      && e.cleared == 1
      && (e.ran == 0 ==> e.fatals == 1 && e.leaks == 0)
      && (e.ran == 1 ==>
            && |e.given| == 1 && e.given[0] in {GotException, GotMessageError}
            && (e.given[0] == GotException <==> e.fate.env.described)
            && (e.leaks == 1 <==> e.fate.env.refMade && !e.fate.env.described))
      && (e.ran == 1 && e.body.AsyncCall? ==> e.outcomes == [if calleeHandled then JsError else SenderDropped])
  {
    RunKeepsInv(State([], []), calleeHandled, events, s);
    assert EntryInv(s.ledger[id], calleeHandled);
  }

  // A `call_async` whose function throws what cannot be made a string: the receiver gets an
  // error that is not the exception, a reference is lost and an exception left pending.
  lemma UndescribedExceptionIsLost() returns (events: seq<Event>, s: State)
    ensures Run(State([], []), true, events, s) && |s.ledger| == 1
    ensures var e := s.ledger[0];
      e.given == [GotMessageError] && e.outcomes == [JsError] && e.leaks == 1 && e.left == 1
  {
    var env := Env(true, true, PendingException, true, false, false, true, true, Success, true);
    var called := ApplyCall(State([], []), AsyncCall, true);
    s := ApplyDispatch(called, true, 0, env);
    events := [Called(AsyncCall, true), Dispatch(0, env)];
    assert Run(s, true, [], s);
    assert events[1..] == [Dispatch(0, env)] && events[1..][1..] == [];
    assert Run(called, true, events[1..], s);
  }
}
