/**
 `Error` values that hold a reference to the JS error they came from, alone and in cause
 chains, and the references the engine counts for them.

 Every operation of the source that makes, copies or consumes an `Error` with a reference
 is a method. Each is proved to keep one account: the engine's count of a reference is the
 number of `Error` values that hold it, nested causes included, and a reference nobody
 holds is deleted. Two makers are not like the others. The stream reader makes its
 reference with a count of zero, so that the count stays one short of the holders; and an
 exception whose message cannot be read leaves its reference to nobody.
 */
module ErrorRefs {
  import opened NapiRefs
  import opened Wrappers

  // `pending` when its status is `PendingException`.
  datatype Error = Error(pending: bool, raw: Option<Ref>, cause: Option<Error>)

  // A JS value as `From<Unknown>` sees it: whether the engine will make a reference to
  // it, and what reading its `cause` gives. Cause chains are finite.
  datatype JsVal = JsVal(id: Value, refMade: bool, cause: Cause)

  datatype Cause =
    | NoCause             // not an object, or `cause` is undefined or null
    | Throws(exc: JsVal)  // reading it throws, or reading the message has
    | Causes(val: JsVal)

  // What a conversion hands to JS: the value a reference led to, or a new error object.
  datatype Js = Existing(v: Value) | Fresh(cause: Option<Js>)

  ghost function Held(e: Error): multiset<Ref> {
    HeldRaw(e.raw)
    + (if e.cause.Some? then Held(e.cause.value) else multiset{})
  }

  ghost function HeldRaw(raw: Option<Ref>): multiset<Ref> {
    if raw.Some? then multiset{raw.value} else multiset{}
  }

  ghost function HeldCause(cause: Option<Error>): multiset<Ref> {
    if cause.Some? then Held(cause.value) else multiset{}
  }

  lemma HeldParts(e: Error, rest: multiset<Ref>)
    ensures e.raw.Some? ==> Held(e) + rest == multiset{e.raw.value} + (HeldCause(e.cause) + rest)
    ensures e.raw.None? ==> Held(e) + rest == HeldCause(e.cause) + rest
    ensures e.cause.None? ==> HeldCause(e.cause) + rest == rest
  {
  }

  ghost function HeldAll(es: seq<Error>): multiset<Ref> {
    if es == [] then multiset{} else Held(es[0]) + HeldAll(es[1..])
  }

  // What a reference leads to.
  function Led(targets: map<Ref, Value>, r: Ref): Value {
    if r in targets then targets[r] else 0
  }

  // What `ToNapiValue` makes of an error: the referenced value if there is one, or a new
  // error object with the same made of its cause. It fails on a reference whose count is
  // zero, that of a `frail` error, since the engine will not take that any lower.
  function AsJs(e: Error, targets: map<Ref, Value>, frail: set<Ref>): Option<Js>
    decreases e, 1
  {
    if e.raw.None? then NewError(e, targets, frail)
    else if e.raw.value in frail then None
    else Some(Existing(Led(targets, e.raw.value)))
  }

  // A new error object, or a panic where its cause does not convert.
  function NewError(e: Error, targets: map<Ref, Value>, frail: set<Ref>): Option<Js>
    decreases e, 0
  {
    if e.cause.None? then Some(Fresh(None))
    else
      match AsJs(e.cause.value, targets, frail)
      case Some(js) => Some(Fresh(Some(js)))
      case None => None
  }

  // What `into_value` makes of it: the reference counts only if it leads to an error.
  function IntoJs(e: Error, targets: map<Ref, Value>, jsErrors: set<Value>, frail: set<Ref>): Option<Js> {
    if e.raw.Some? && Led(targets, e.raw.value) in jsErrors then Some(Existing(Led(targets, e.raw.value)))
    else NewError(e, targets, frail)
  }

  // An error made from a JS value: a reference to each value of the cause chain, as far
  // as the engine makes one and reading the next does not throw.
  predicate Mirrors(e: Error, v: JsVal, targets: map<Ref, Value>) {
    && !e.pending
    && if v.refMade then Points(e, v, targets) && MirrorsCause(e.cause, v.cause, targets)
       else e.raw.None? && e.cause.None?
  }

  predicate Points(e: Error, v: JsVal, targets: map<Ref, Value>) {
    e.raw.Some? && e.raw.value in targets && targets[e.raw.value] == v.id
  }

  predicate MirrorsCause(cause: Option<Error>, from: Cause, targets: map<Ref, Value>) {
    if from.Causes? then cause.Some? && Mirrors(cause.value, from.val, targets) else cause.None?
  }

  // An error made from an exception: its cause is read even if no reference is made to it.
  predicate Describes(e: Error, v: JsVal, targets: map<Ref, Value>) {
    && e.pending && (if v.refMade then Points(e, v, targets) else e.raw.None?)
    && MirrorsCause(e.cause, v.cause, targets)
  }

  // ----- chains, read off either side

  // How many objects are new down to the first value that was there, and that value.
  function FreshDepth(js: Js): nat {
    match js
    case Existing(_) => 0
    case Fresh(None) => 1
    case Fresh(Some(cause)) => 1 + FreshDepth(cause)
  }

  function EndValue(js: Js): Option<Value> {
    match js
    case Existing(v) => Some(v)
    case Fresh(None) => None
    case Fresh(Some(cause)) => EndValue(cause)
  }

  // How many errors of a chain hold no reference down to the first that does, and that
  // reference.
  function PlainDepth(e: Error): nat {
    if e.raw.Some? then 0 else if e.cause.None? then 1 else 1 + PlainDepth(e.cause.value)
  }

  function EndRef(e: Error): Option<Ref> {
    if e.raw.Some? || e.cause.None? then e.raw else EndRef(e.cause.value)
  }

  predicate EndsAlike(js: Js, depth: nat, end: Option<Ref>, targets: map<Ref, Value>) {
    && FreshDepth(js) == depth
    && EndValue(js) == if end.Some? then Some(Led(targets, end.value)) else None
  }

  // An error converts if and only if its chain does not end in a reference whose count is
  // zero, and then to a chain of as many new objects, each the cause of the one before, that
  // ends in the value the last reference leads to.
  lemma {:induction false} ConvertsToItsChain(e: Error, targets: map<Ref, Value>, frail: set<Ref>)
    ensures AsJs(e, targets, frail).Some? <==> EndRef(e).None? || EndRef(e).value !in frail
    ensures AsJs(e, targets, frail).Some? ==>
      EndsAlike(AsJs(e, targets, frail).value, PlainDepth(e), EndRef(e), targets)
  {
    if e.raw.None? && e.cause.Some? {
      ConvertsToItsChain(e.cause.value, targets, frail);
    }
  }

  // `into_value` gives back the value that a reference to an error leads to, whatever its
  // count. For any other error, with a reference to something else or with none, it makes
  // one new object, and the conversion of the cause hangs from it.
  lemma IntoValueMakesTheChain(e: Error, targets: map<Ref, Value>, jsErrors: set<Value>, frail: set<Ref>)
    ensures var js, plain := IntoJs(e, targets, jsErrors, frail), e.(raw := None);
      if e.raw.Some? && Led(targets, e.raw.value) in jsErrors then
        js.Some? && EndsAlike(js.value, 0, e.raw, targets)
      else
        && (js.Some? <==> EndRef(plain).None? || EndRef(plain).value !in frail)
        && (js.Some? ==> EndsAlike(js.value, PlainDepth(plain), EndRef(plain), targets))
  {
    if e.cause.Some? {
      ConvertsToItsChain(e.cause.value, targets, frail);
    }
  }

  // The values down a cause chain, as far as references are made to them and reading the
  // next one gives it.
  function ChainOf(v: JsVal): seq<Value> {
    if !v.refMade then [] else [v.id] + CausesOf(v.cause)
  }

  function CausesOf(cause: Cause): seq<Value> {
    match cause
    case NoCause => []
    case Throws(_) => []
    case Causes(val) => ChainOf(val)
  }

  // What the references down an error's chain lead to.
  function Pointed(e: Error, targets: map<Ref, Value>): seq<Value> {
    (if e.raw.Some? then [Led(targets, e.raw.value)] else [])
    + (if e.cause.Some? then Pointed(e.cause.value, targets) else [])
  }

  // An error made from a JS value refers to the values of its cause chain, in order, and to
  // no others; and so does the error made of an exception, past the exception itself if the
  // engine made no reference to that.
  lemma {:induction false} MirrorPointsDownTheChain(e: Error, v: JsVal, targets: map<Ref, Value>)
    ensures Mirrors(e, v, targets) ==> !e.pending && Pointed(e, targets) == ChainOf(v)
    ensures Describes(e, v, targets) ==>
      e.pending && Pointed(e, targets) == (if v.refMade then [v.id] else []) + CausesOf(v.cause)
  {
    if MirrorsCause(e.cause, v.cause, targets) && e.cause.Some? {
      MirrorPointsDownTheChain(e.cause.value, v.cause.val, targets);
    }
  }

  // The engine counts exactly the holders, and has deleted what has none.
  ghost predicate Balanced(counts: map<Ref, nat>, holders: multiset<Ref>) {
    forall r :: (r in counts <==> r in holders) && (r in counts ==> counts[r] == holders[r])
  }

  // The same with references of readers among them: such a one counts zero as long as it
  // has one holder, and once cloned it counts one less than its holders, and is deleted
  // when there is still one.
  ghost predicate Accounts(counts: map<Ref, nat>, holders: multiset<Ref>, readers: set<Ref>, cloned: set<Ref>) {
    forall r :: AccountsFor(counts, r, holders[r], r in readers, r in cloned)
  }

  predicate AccountsFor(counts: map<Ref, nat>, r: Ref, held: nat, reader: bool, cloned: bool) {
    if cloned then
      held >= 1 && (r in counts <==> held >= 2) && (r in counts ==> counts[r] == held - 1)
    else if reader then
      held <= 1 && (r in counts <==> held == 1) && (r in counts ==> counts[r] == 0)
    else
      (r in counts <==> held > 0) && (r in counts ==> counts[r] == held)
  }

  // What giving up a holder does to the count of a live reference: the engine will not lower
  // a count of zero, and the count that was asked for reads zero all the same.
  function GivenUp(counts: map<Ref, nat>, r: Ref): map<Ref, nat>
    requires r in counts
  {
    if counts[r] <= 1 then counts - {r} else counts[r := counts[r] - 1]
  }

  lemma GivenUpAccounts(counts: map<Ref, nat>, r: Ref, rest: multiset<Ref>, readers: set<Ref>, cloned: set<Ref>)
    requires r in counts && Accounts(counts, multiset{r} + rest, readers, cloned)
    ensures Accounts(GivenUp(counts, r), rest, readers, cloned)
  {
    forall q: Ref
      ensures AccountsFor(GivenUp(counts, r), q, rest[q], q in readers, q in cloned)
    {
      assert AccountsFor(counts, q, (multiset{r} + rest)[q], q in readers, q in cloned);
    }
  }

  // A reference that is held and gone is that of a cloned reader's error.
  lemma GoneWasCloned(counts: map<Ref, nat>, r: Ref, holders: multiset<Ref>, readers: set<Ref>, cloned: set<Ref>)
    requires r !in counts && r in holders && Accounts(counts, holders, readers, cloned)
    ensures r in cloned
  {
    assert AccountsFor(counts, r, holders[r], r in readers, r in cloned);
  }

  lemma CloneAccounts(counts: map<Ref, nat>, r: Ref, holders: multiset<Ref>, readers: set<Ref>, cloned: set<Ref>)
    requires r in counts && r in holders && cloned <= readers && Accounts(counts, holders, readers, cloned)
    ensures Accounts(counts[r := counts[r] + 1], multiset{r} + holders, readers,
                     cloned + if r in readers then {r} else {})
  {
    forall q: Ref
      ensures AccountsFor(counts[r := counts[r] + 1], q, (multiset{r} + holders)[q], q in readers,
                          q in cloned + if r in readers then {r} else {})
    {
      assert AccountsFor(counts, q, holders[q], q in readers, q in cloned);
    }
  }

  // A reference new to the engine, with a count of one for its owner or of zero for a reader.
  lemma NewAccounts(counts: map<Ref, nat>, r: Ref, holders: multiset<Ref>, readers: set<Ref>, cloned: set<Ref>, reader: bool)
    requires r !in counts && r !in readers && cloned <= readers && Accounts(counts, holders, readers, cloned)
    ensures Accounts(counts[r := if reader then 0 else 1], multiset{r} + holders,
                     readers + if reader then {r} else {}, cloned)
  {
    forall q: Ref
      ensures AccountsFor(counts[r := if reader then 0 else 1], q, (multiset{r} + holders)[q],
                          q in readers + (if reader then {r} else {}), q in cloned)
    {
      assert AccountsFor(counts, q, holders[q], q in readers, q in cloned);
    }
  }

  // Without readers' references the account is the balance.
  lemma NoReadersIsBalance(counts: map<Ref, nat>, holders: multiset<Ref>)
    ensures Accounts(counts, holders, {}, {}) <==> Balanced(counts, holders)
  {
    forall r: Ref
      ensures AccountsFor(counts, r, holders[r], false, false)
        <==> (r in counts <==> r in holders) && (r in counts ==> counts[r] == holders[r])
    {
    }
    if Accounts(counts, holders, {}, {}) {
      forall r: Ref
        ensures (r in counts <==> r in holders) && (r in counts ==> counts[r] == holders[r])
      {
        assert AccountsFor(counts, r, holders[r], r in {}, r in {});
      }
    }
  }

  // The holders determine the engine's table.
  lemma AccountIsExact(counts: map<Ref, nat>, counts': map<Ref, nat>, holders: multiset<Ref>, readers: set<Ref>, cloned: set<Ref>)
    requires Accounts(counts, holders, readers, cloned) && Accounts(counts', holders, readers, cloned)
    ensures counts == counts'
    ensures holders == multiset{} ==> counts == map[] && cloned == {}
  {
    forall r: Ref
      ensures r in counts <==> r in counts'
      ensures r in counts ==> counts[r] == counts'[r]
      ensures holders == multiset{} ==> r !in counts && r !in cloned
    {
      assert AccountsFor(counts, r, holders[r], r in readers, r in cloned);
      assert AccountsFor(counts', r, holders[r], r in readers, r in cloned);
    }
    assert holders == multiset{} ==> counts.Keys == {};
  }

  datatype Thrown = Nothing | Threw(js: Js) | Panics

  class Errors {
    const engine: Engine
    const jsErrors: set<Value>  // values for which `napi_is_error` answers true
    var owned: seq<Error>       // the `Error` values Rust owns
    ghost var readers: set<Ref> // made by stream readers, with a count of zero
    ghost var cloned: set<Ref>  // those of them that were cloned
    ghost var leaked: multiset<Ref>
    ghost var touched: bool     // a deleted reference was handed to the engine

    constructor (jsErrors: set<Value>)
      ensures Valid() && fresh(engine) && owned == [] && this.jsErrors == jsErrors
      ensures readers == cloned == {} && leaked == multiset{} && !touched
    {
      this.engine := new Engine();
      this.jsErrors := jsErrors;
      owned := [];
      readers, cloned, leaked, touched := {}, {}, multiset{}, false;
    }

    // Until a deleted reference is touched, which takes a cloned reader's error, the engine
    // accounts for the holders and for what was leaked.
    ghost predicate Sound(holders: multiset<Ref>)
      reads this, engine
    {
      && engine.Valid() && cloned <= readers <= engine.targets.Keys
      && (forall r | r in leaked :: r in engine.targets && r !in readers)
      && (touched ==> cloned != {})
      && (touched || Accounts(engine.counts, holders + leaked, readers, cloned))
    }

    ghost predicate Valid()
      reads this, engine
    {
      Sound(HeldAll(owned))
    }

    // The references whose count is zero.
    ghost function Frail(): set<Ref>
      reads this
    {
      readers - cloned
    }

    // ----- one reference

    // `napi_reference_unref`, and `napi_delete_reference` at zero.
    method GiveUp(r: Ref)
      requires engine.Valid() && r in engine.counts
      modifies engine`counts
      ensures engine.Valid() && engine.counts == GivenUp(old(engine.counts), r)
    {
      var left := 0;
      if engine.counts[r] > 0 {
        left := engine.Unreference(r);
      }
      if left == 0 {
        engine.DeleteReference(r);
      }
    }

    lemma GoneIsCloned(r: Ref, holders: multiset<Ref>)
      requires r in holders && r !in engine.counts && Sound(holders)
      ensures cloned != {}
    {
      assert r in holders + leaked;
      if !touched {
        GoneWasCloned(engine.counts, r, holders + leaked, readers, cloned);
      }
    }

    lemma GivenUpIsSound(r: Ref, rest: multiset<Ref>)
      requires r in engine.counts && Sound(multiset{r} + rest)
      ensures touched || Accounts(GivenUp(engine.counts, r), rest + leaked, readers, cloned)
    {
      assert multiset{r} + rest + leaked == multiset{r} + (rest + leaked);
      if !touched {
        GivenUpAccounts(engine.counts, r, rest + leaked, readers, cloned);
      }
    }

    ghost function WithCloned(r: Ref): (s: set<Ref>)
      reads this
      ensures cloned <= s && (cloned <= readers ==> s <= readers)
    {
      cloned + if r in readers then {r} else {}
    }

    lemma ClonedIsSound(r: Ref, holders: multiset<Ref>)
      requires r in engine.counts && r in holders && Sound(holders)
      ensures touched
        || Accounts(engine.counts[r := engine.counts[r] + 1], multiset{r} + holders + leaked, readers, WithCloned(r))
    {
      assert multiset{r} + holders + leaked == multiset{r} + (holders + leaked);
      if !touched {
        CloneAccounts(engine.counts, r, holders + leaked, readers, cloned);
      }
    }

    // Gives up one holder of `r`; the last one deletes the reference.
    method Release(r: Ref, ghost rest: multiset<Ref>)
      requires Sound(multiset{r} + rest)
      modifies engine`counts, this`touched
      ensures Sound(rest) && (old(touched) ==> touched)
    {
      if r !in engine.counts {
        GoneIsCloned(r, multiset{r} + rest);
        touched := true;
      } else {
        GivenUpIsSound(r, rest);
        GiveUp(r);
      }
    }

    // `napi_get_reference_value`
    method ReadReference(r: Ref, ghost holders: multiset<Ref>) returns (v: Value)
      requires r in holders && Sound(holders)
      modifies this`touched
      ensures Sound(holders) && (old(touched) ==> touched)
      ensures touched || (r in engine.counts && v == Led(engine.targets, r))
    {
      if r !in engine.counts {
        GoneIsCloned(r, holders);
        touched := true;
        v := *;
        return;
      }
      v := engine.GetReferenceValue(r);
    }

    // ----- one error

    // `Drop for Error`, then the drop of the `cause` field.
    method DropError(e: Error, ghost rest: multiset<Ref>)
      requires Sound(Held(e) + rest)
      modifies engine`counts, this`touched
      ensures Sound(rest) && (old(touched) ==> touched)
      decreases e
    {
      HeldParts(e, rest);
      if e.raw.Some? {
        Release(e.raw.value, HeldCause(e.cause) + rest);
      }
      if e.cause.Some? {
        DropError(e.cause.value, rest);
      }
    }

    method TryClone(e: Error, ghost rest: multiset<Ref>) returns (copy: Error)
      requires Sound(Held(e) + rest)
      modifies engine`counts, this`touched, this`cloned
      ensures copy == e.(cause := None)
      ensures cloned == old(cloned) + if e.raw.Some? && e.raw.value in readers then {e.raw.value} else {}
      ensures Sound(Held(copy) + Held(e) + rest) && (old(touched) ==> touched)
    {
      copy := e.(cause := None);
      if e.raw.Some? {
        CloneReference(e.raw.value, Held(e) + rest);
        assert Held(copy) == multiset{e.raw.value};
        assert Held(copy) + Held(e) + rest == multiset{e.raw.value} + (Held(e) + rest);
      } else {
        assert Held(copy) + Held(e) + rest == Held(e) + rest;
      }
    }

    // `napi_reference_ref`
    method CloneReference(r: Ref, ghost holders: multiset<Ref>)
      requires r in holders && Sound(holders)
      modifies engine`counts, this`touched, this`cloned
      ensures cloned == old(WithCloned(r))
      ensures Sound(multiset{r} + holders) && (old(touched) ==> touched)
    {
      ghost var more := WithCloned(r);
      if r in engine.counts {
        ClonedIsSound(r, holders);
        engine.Reference(r);
        cloned := more;
        assert touched || Accounts(engine.counts, multiset{r} + holders + leaked, readers, cloned);
      } else {
        GoneIsCloned(r, holders);
        touched := true;
        cloned := more;
      }
    }

    // A new reference with a count of one.
    method MakeReference(v: Value, ghost rest: multiset<Ref>) returns (r: Ref)
      requires Sound(rest)
      modifies engine
      ensures Sound(multiset{r} + rest) && r in engine.targets && engine.targets[r] == v
      ensures r !in old(engine.targets) && TargetsGrow(old(engine.targets), engine.targets)
    {
      assert multiset{engine.next} + rest + leaked == multiset{engine.next} + (rest + leaked);
      if !touched {
        NewAccounts(engine.counts, engine.next, rest + leaked, readers, cloned, false);
      }
      r := engine.CreateReference(v, 1);
    }

    // `From<Unknown>`
    method FromUnknown(v: JsVal, ghost rest: multiset<Ref>) returns (e: Error)
      requires Sound(rest)
      modifies engine, this`touched
      ensures Sound(Held(e) + rest) && (old(touched) ==> touched)
      ensures Mirrors(e, v, engine.targets) && (e.raw.Some? ==> e.raw.value !in old(engine.targets))
      ensures TargetsGrow(old(engine.targets), engine.targets)
      decreases v, 1
    {
      if !v.refMade {
        e := Error(false, None, None);
        assert Held(e) + rest == rest;
        return;
      }
      var r := MakeReference(v.id, rest);
      var cause := ExtractErrorCause(v.cause, multiset{r} + rest);
      e := Error(false, Some(r), cause);
      assert Held(e) + rest == HeldCause(cause) + (multiset{r} + rest);
    }

    // `extract_error_cause(..).unwrap_or(None)`: an exception thrown by the property read
    // becomes an `Error` of its own, which is dropped on the spot.
    method ExtractErrorCause(from: Cause, ghost rest: multiset<Ref>) returns (cause: Option<Error>)
      requires Sound(rest)
      modifies engine, this`touched
      ensures Sound(HeldCause(cause) + rest) && (old(touched) ==> touched)
      ensures MirrorsCause(cause, from, engine.targets)
      ensures TargetsGrow(old(engine.targets), engine.targets)
      decreases from, 0
    {
      match from {
        case NoCause =>
          cause := None;
          assert HeldCause(cause) + rest == rest;
        case Throws(exc) =>
          var e := FromUnknown(exc, rest);
          DropError(e, rest);
          cause := None;
          assert HeldCause(cause) + rest == rest;
        case Causes(val) =>
          var e := FromUnknown(val, rest);
          cause := Some(e);
      }
    }

    // The error `call_js_cb` makes of an exception it has cleared. The reference comes
    // first: if then the message cannot be read, it stays behind, and the error in its
    // place has none; `pending` is the status of the failed read.
    method FromThrown(v: JsVal, described: bool, pending: bool, ghost rest: multiset<Ref>)
      returns (e: Error, ghost lost: Option<Ref>)
      requires Sound(rest)
      modifies engine, this`touched, this`leaked
      ensures Sound(Held(e) + rest) && (old(touched) ==> touched)
      ensures lost.Some? == (!described && v.refMade) && leaked == old(leaked) + HeldRaw(lost)
      ensures if described then Describes(e, v, engine.targets) else e == Error(pending, None, None)
    {
      var raw := ReferTo(v, rest);
      if described {
        e := Describe(raw, v, rest);
        lost := None;
        assert leaked + HeldRaw(lost) == leaked;
      } else {
        e := Error(pending, None, None);
        Leak(raw, rest);
        lost := raw;
        assert Held(e) + rest == rest;
      }
    }

    method ReferTo(v: JsVal, ghost rest: multiset<Ref>) returns (raw: Option<Ref>)
      requires Sound(rest)
      modifies engine
      ensures Sound(HeldRaw(raw) + rest) && raw.Some? == v.refMade
      ensures raw.Some? ==>
        raw.value in engine.targets && engine.targets[raw.value] == v.id && raw.value !in readers
    {
      if v.refMade {
        var r := MakeReference(v.id, rest);
        raw := Some(r);
      } else {
        raw := None;
        assert HeldRaw(raw) + rest == rest;
      }
    }

    method Describe(raw: Option<Ref>, v: JsVal, ghost rest: multiset<Ref>) returns (e: Error)
      requires Sound(HeldRaw(raw) + rest) && raw.Some? == v.refMade
      requires raw.Some? ==> raw.value in engine.targets && engine.targets[raw.value] == v.id
      modifies engine, this`touched
      ensures Sound(Held(e) + rest) && (old(touched) ==> touched)
      ensures Describes(e, v, engine.targets)
    {
      var cause := ExtractErrorCause(v.cause, HeldRaw(raw) + rest);
      e := Error(true, raw, cause);
      assert Held(e) + rest == HeldCause(cause) + (HeldRaw(raw) + rest);
    }

    // Nobody holds the reference any more.
    ghost method Leak(raw: Option<Ref>, rest: multiset<Ref>)
      requires Sound(HeldRaw(raw) + rest)
      requires raw.Some? ==> raw.value in engine.targets && raw.value !in readers
      modifies this`leaked
      ensures Sound(rest) && leaked == old(leaked) + HeldRaw(raw)
    {
      assert HeldRaw(raw) + rest + leaked == rest + (leaked + HeldRaw(raw));
      leaked := leaked + HeldRaw(raw);
    }

    lemma NewIsNoReader(r: Ref, before: map<Ref, Value>)
      requires readers <= before.Keys && r !in before
      ensures r !in readers
    {
    }

    // The error a stream reader makes of a rejection, if the engine makes the reference.
    method FromReader(v: JsVal, ghost rest: multiset<Ref>) returns (e: Option<Error>)
      requires Sound(rest)
      modifies engine, this`readers
      ensures e.Some? == v.refMade && Sound(HeldCause(e) + rest)
      ensures if e.Some? then
          && e.value.raw.Some? && e.value == Error(false, e.value.raw, None)
          && Points(e.value, v, engine.targets) && readers == old(readers) + {e.value.raw.value}
        else readers == old(readers)
    {
      if !v.refMade {
        assert HeldCause(None) + rest == rest;
        return None;
      }
      assert multiset{engine.next} + rest + leaked == multiset{engine.next} + (rest + leaked);
      if !touched {
        NewAccounts(engine.counts, engine.next, rest + leaked, readers, cloned, true);
      }
      var r := engine.CreateReference(v.id, 0);
      readers := readers + {r};
      e := Some(Error(false, Some(r), None));
      assert Held(e.value) == multiset{r};
    }

    // `ToNapiValue for Error`; None where it returns an error.
    method ToNapiValue(e: Error, ghost rest: multiset<Ref>) returns (js: Option<Js>)
      requires Sound(Held(e) + rest)
      modifies engine`counts, this`touched
      ensures Sound(rest) && (old(touched) ==> touched)
      ensures touched || js == AsJs(e, engine.targets, Frail())
      decreases e, 1
    {
      if e.raw.None? {
        js := IntoValue(e, rest);
        return;
      }
      if e.raw.value in engine.counts && engine.counts[e.raw.value] == 0 {
        ZeroIsFrail(e.raw.value, Held(e) + rest);
        DropError(e, rest);
        return None;
      }
      ZeroIsFrail(e.raw.value, Held(e) + rest);
      var v := TakeReference(e, rest);
      DropError(e.(raw := None), rest);
      js := Some(Existing(v));
    }

    lemma ZeroIsFrail(r: Ref, holders: multiset<Ref>)
      requires r in holders && Sound(holders)
      ensures !touched && r in engine.counts ==> (engine.counts[r] == 0 <==> r in Frail())
    {
      assert r in holders + leaked;
      if !touched {
        assert AccountsFor(engine.counts, r, (holders + leaked)[r], r in readers, r in cloned);
      }
    }

    // The value of an error's own reference, which is given up.
    method TakeReference(e: Error, ghost rest: multiset<Ref>) returns (v: Value)
      requires e.raw.Some? && Sound(Held(e) + rest)
      modifies engine`counts, this`touched
      ensures Sound(Held(e.(raw := None)) + rest) && (old(touched) ==> touched)
      ensures touched || (e.raw.value in old(engine.counts) && v == Led(engine.targets, e.raw.value))
    {
      assert e.raw.value in Held(e) + rest;
      v := ReadReference(e.raw.value, Held(e) + rest);
      assert Held(e) + rest == multiset{e.raw.value} + (Held(e.(raw := None)) + rest);
      Release(e.raw.value, Held(e.(raw := None)) + rest);
    }

    // `into_value` of the JS error wrappers; None where it panics. A reference to something
    // that is not an error is given up all the same, and a new error object made instead.
    method IntoValue(e: Error, ghost rest: multiset<Ref>) returns (js: Option<Js>)
      requires Sound(Held(e) + rest)
      modifies engine`counts, this`touched
      ensures Sound(rest) && (old(touched) ==> touched)
      ensures touched || js == IntoJs(e, engine.targets, jsErrors, Frail())
      decreases e, 0
    {
      if e.raw.Some? {
        var v := TakeReference(e, rest);
        if v in jsErrors {
          DropError(e.(raw := None), rest);
          return Some(Existing(v));
        }
      }
      js := MakeError(e.(raw := None), rest);
    }

    // The last part of `into_value`: a new error object, with the cause if there is one. It
    // panics if the cause does not convert.
    method MakeError(e: Error, ghost rest: multiset<Ref>) returns (js: Option<Js>)
      requires e.raw.None? && Sound(Held(e) + rest)
      modifies engine`counts, this`touched
      ensures Sound(rest) && (old(touched) ==> touched)
      ensures touched || js == NewError(e, engine.targets, Frail())
      decreases e.cause, 2
    {
      if e.cause.Some? {
        assert Held(e) == Held(e.cause.value);
        var cause := ToNapiValue(e.cause.value, rest);
        return if cause.Some? then Some(Fresh(Some(cause.value))) else None;
      }
      assert Held(e) + rest == rest;
      return Some(Fresh(None));
    }

    // `Env::create_error`: the referenced value, or a new error object without the cause;
    // the error is then dropped.
    method CreateError(e: Error, ghost rest: multiset<Ref>) returns (js: Js)
      requires Sound(Held(e) + rest)
      modifies engine`counts, this`touched
      ensures Sound(rest) && (old(touched) ==> touched)
      ensures touched || js == if e.raw.Some? then Existing(Led(engine.targets, e.raw.value)) else Fresh(None)
    {
      js := Fresh(None);
      if e.raw.Some? {
        assert e.raw.value in Held(e) + rest;
        var v := ReadReference(e.raw.value, Held(e) + rest);
        js := Existing(v);
      }
      DropError(e, rest);
    }

    // A JS value taken as an `Error` and handed back is the same value, and the engine's
    // counts are as they were.
    method ThereAndBack(v: JsVal) returns (js: Option<Js>)
      requires Valid() && v.refMade && !touched
      modifies engine, this`touched
      ensures Valid()
      ensures !touched ==> js == Some(Existing(v.id)) && engine.counts == old(engine.counts)
      ensures cloned == {} ==> !touched
    {
      var e := FromUnknown(v, HeldAll(owned));
      js := ToNapiValue(e, HeldAll(owned));
      if !touched {
        AccountIsExact(old(engine.counts), engine.counts, HeldAll(owned) + leaked, readers, cloned);
      }
    }

    // `throw_into`, given the exception already pending in the env if there is one. The
    // result is what is thrown.
    method ThrowInto(e: Error, exception: Option<Value>, ghost rest: multiset<Ref>) returns (thrown: Thrown)
      requires Sound(Held(e) + rest)
      modifies engine`counts, this`touched
      ensures Sound(rest) && (old(touched) ==> touched)
      ensures e.pending ==> thrown == Nothing
      ensures !e.pending && exception.Some? ==> thrown == Threw(Existing(exception.value))
      ensures !e.pending && exception.None? && !touched ==>
        thrown == match IntoJs(e, engine.targets, jsErrors, Frail()) case Some(js) => Threw(js) case None => Panics
    {
      if e.pending {
        DropError(e, rest);
        return Nothing;
      }
      if exception.Some? {
        DropError(e, rest);
        return Threw(Existing(exception.value));
      }
      var js := IntoValue(e, rest);
      return if js.Some? then Threw(js.value) else Panics;
    }

    // An exception that a threadsafe function's callback is given, and that it throws again:
    // its status says that an exception is pending, so nothing is thrown.
    method CatchAndThrow(v: JsVal, exception: Option<Value>) returns (thrown: Thrown)
      requires Valid()
      modifies engine, this`touched, this`leaked
      ensures Valid() && thrown == Nothing
    {
      var e, _ := FromThrown(v, true, true, HeldAll(owned));
      thrown := ThrowInto(e, exception, HeldAll(owned));
    }

    // ----- every run

    function Without(i: nat): seq<Error>
      requires i < |owned|
      reads this
    {
      RemoveAt(owned, i)
    }

    method Own(e: Error)
      requires Sound(Held(e) + HeldAll(owned))
      modifies this`owned
      ensures Valid() && owned == old(owned) + [e]
    {
      HeldAllOfMore(owned, e);
      owned := owned + [e];
    }

    method CloneAt(i: nat)
      requires Valid() && i < |owned|
      modifies this`owned, engine`counts, this`touched, this`cloned
      ensures Valid() && owned == old(owned) + [old(owned)[i].(cause := None)] && (old(touched) ==> touched)
      ensures cloned == old(cloned) + OfReader(old(owned)[i])
    {
      HeldAllSplits(owned, i);
      var copy := TryClone(owned[i], HeldAll(Without(i)));
      assert Held(copy) + Held(owned[i]) + HeldAll(Without(i)) == Held(copy) + HeldAll(owned);
      Own(copy);
    }

    ghost function OfReader(e: Error): set<Ref>
      reads this
    {
      if e.raw.Some? && e.raw.value in readers then {e.raw.value} else {}
    }

    method ConsumeAt(i: nat, how: Consumer)
      requires Valid() && i < |owned|
      modifies this`owned, engine`counts, this`touched
      ensures Valid() && owned == RemoveAt(old(owned), i) && (old(touched) ==> touched)
    {
      HeldAllSplits(owned, i);
      Consume(owned[i], how, HeldAll(Without(i)));
      owned := Without(i);
    }

    // One operation on the errors Rust owns; an index out of range does nothing. Only a
    // reader's error adds to `readers`, only a clone of one to `cloned`, and only an
    // exception that cannot be described to `leaked`.
    method Perform(op: Op)
      requires Valid()
      modifies this, engine
      ensures Valid() && (old(touched) ==> touched)
      ensures !op.FromStream? ==> readers == old(readers)
      ensures op.Clones? && op.i < |old(owned)| ==> cloned == old(cloned) + old(OfReader(owned[op.i]))
      ensures !(op.Clones? && op.i < |old(owned)|) ==> cloned == old(cloned)
      ensures !Undescribed(op) ==> leaked == old(leaked)
    {
      match op {
        case Plain(pending) => OwnPlain(pending);
        case FromJs(v) => OwnFromJs(v);
        case FromStream(v) => OwnFromStream(v);
        case FromThrow(v, described, pending) => OwnFromThrow(v, described, pending);
        case Clones(i) =>
          if i < |owned| {
            CloneAt(i);
          }
        case _ => Change(op);
      }
    }

    method Change(op: Op)
      requires Valid() && (op.Consumes? || op.SetsCause?)
      modifies this`owned, engine`counts, this`touched
      ensures Valid() && (old(touched) ==> touched)
    {
      if op.Consumes? {
        if op.i < |owned| {
          ConsumeAt(op.i, op.how);
        }
      } else if op.i < |owned| && op.j < |owned| && op.i != op.j {
        SetCause(op.i, op.j);
      }
    }

    method OwnPlain(pending: bool)
      requires Valid()
      modifies this`owned
      ensures Valid() && owned == old(owned) + [Error(pending, None, None)]
    {
      assert Held(Error(pending, None, None)) + HeldAll(owned) == HeldAll(owned);
      Own(Error(pending, None, None));
    }

    method OwnFromJs(v: JsVal)
      requires Valid()
      modifies this`owned, this`touched, engine
      ensures Valid() && |owned| == |old(owned)| + 1 && owned[..|old(owned)|] == old(owned)
      ensures Mirrors(owned[|old(owned)|], v, engine.targets) && (old(touched) ==> touched)
    {
      var e := FromUnknown(v, HeldAll(owned));
      Own(e);
    }

    method OwnFromStream(v: JsVal)
      requires Valid()
      modifies this`owned, this`readers, engine
      ensures Valid() && |owned| == |old(owned)| + if v.refMade then 1 else 0
      ensures owned[..|old(owned)|] == old(owned)
    {
      var e := FromReader(v, HeldAll(owned));
      if e.Some? {
        Own(e.value);
      } else {
        assert HeldCause(e) + HeldAll(owned) == HeldAll(owned);
      }
    }

    method OwnFromThrow(v: JsVal, described: bool, pending: bool)
      requires Valid()
      modifies this`owned, this`leaked, this`touched, engine
      ensures Valid() && |owned| == |old(owned)| + 1 && owned[..|old(owned)|] == old(owned) && (old(touched) ==> touched)
      ensures described || !v.refMade ==> leaked == old(leaked)
    {
      var e, lost := FromThrown(v, described, pending, HeldAll(owned));
      assert lost.None? ==> old(leaked) + HeldRaw(lost) == old(leaked);
      Own(e);
    }

    method Consume(e: Error, how: Consumer, ghost rest: multiset<Ref>)
      requires Sound(Held(e) + rest)
      modifies engine`counts, this`touched
      ensures Sound(rest) && (old(touched) ==> touched)
    {
      match how {
        case ByDrop => DropError(e, rest);
        case ByToNapiValue => var _ := ToNapiValue(e, rest);
        case ByIntoValue => var _ := IntoValue(e, rest);
        case ByThrow(exception) => var _ := ThrowInto(e, exception, rest);
        case ByCreateError => var _ := CreateError(e, rest);
      }
    }

    // `set_cause`: the error at `j` moves into the one at `i`, whose old cause is dropped.
    method SetCause(i: nat, j: nat)
      requires Valid() && i < |owned| && j < |owned| && i != j
      modifies this`owned, engine`counts, this`touched
      ensures Valid() && (old(touched) ==> touched)
      ensures owned == WithCause(old(owned), i, j)
    {
      var e := owned[i];
      var moved := WithCause(owned, i, j);
      SetCauseMoves(owned, i, j);
      if e.cause.Some? {
        DropError(e.cause.value, HeldAll(moved));
      } else {
        assert HeldCause(e.cause) + HeldAll(moved) == HeldAll(moved);
      }
      owned := moved;
    }

    // After any run, dropping what Rust still owns has touched a deleted reference if and
    // only if some reader's error was cloned on the way. If none was, the engine is left
    // with exactly the references of exceptions that could not be described.
    method RunThenDropAll(ops: seq<Op>)
      requires Valid()
      modifies this, engine
      ensures Valid() && owned == []
      ensures touched <==> cloned != {}
      ensures !touched ==> Balanced(engine.counts, leaked)
      ensures (forall k | 0 <= k < |ops| :: !ops[k].FromStream?) && old(readers) == {} ==> !touched
      ensures (forall k | 0 <= k < |ops| :: !Undescribed(ops[k])) ==> leaked == old(leaked)
    {
      for k := 0 to |ops|
        invariant Valid()
        invariant (forall j | 0 <= j < k :: !ops[j].FromStream?) ==> readers == old(readers)
        invariant (forall j | 0 <= j < k :: !Undescribed(ops[j])) ==> leaked == old(leaked)
      {
        Perform(ops[k]);
      }
      while owned != []
        invariant Valid()
        invariant (forall j | 0 <= j < |ops| :: !ops[j].FromStream?) ==> readers == old(readers)
        invariant (forall j | 0 <= j < |ops| :: !Undescribed(ops[j])) ==> leaked == old(leaked)
        decreases |owned|
      {
        ConsumeAt(0, ByDrop);
      }
      NobodyHolds();
    }

    lemma NobodyHolds()
      requires Sound(multiset{})
      ensures touched <==> cloned != {}
      ensures !touched ==> Balanced(engine.counts, leaked)
    {
      assert multiset{} + leaked == leaked;
      if !touched {
        forall r: Ref
          ensures r !in cloned
          ensures (r in engine.counts <==> r in leaked) && (r in engine.counts ==> engine.counts[r] == leaked[r])
        {
          assert AccountsFor(engine.counts, r, leaked[r], r in readers, r in cloned);
        }
      }
    }
  }

  datatype Consumer = ByDrop | ByToNapiValue | ByIntoValue | ByThrow(exception: Option<Value>) | ByCreateError

  datatype Op =
    | Plain(pending: bool) // `Error::new` and its like
    | FromJs(v: JsVal)
    | FromStream(v: JsVal)
    | FromThrow(v: JsVal, described: bool, pending: bool)
    | Clones(i: nat)
    | Consumes(i: nat, how: Consumer)
    | SetsCause(i: nat, j: nat)

  predicate Undescribed(op: Op) {
    op.FromThrow? && !op.described && op.v.refMade
  }

  function RemoveAt(es: seq<Error>, i: nat): seq<Error>
    requires i < |es|
  {
    es[..i] + es[i + 1..]
  }

  // The error at `j` moved into the cause of the one at `i`.
  function WithCause(es: seq<Error>, i: nat, j: nat): seq<Error>
    requires i < |es| && j < |es| && i != j
  {
    RemoveAt(es[i := es[i].(cause := Some(es[j]))], j)
  }

  // The one error has the other as its cause, and the rest are where they were.
  lemma OneTakesTheOther(es: seq<Error>, i: nat, j: nat)
    requires i < |es| && j < |es| && i != j
    ensures var moved := WithCause(es, i, j);
      && |moved| == |es| - 1
      && moved[if i < j then i else i - 1] == Error(es[i].pending, es[i].raw, Some(es[j]))
      && forall k | 0 <= k < |es| && k != i && k != j :: moved[if k < j then k else k - 1] == es[k]
  {
    var full := es[i := es[i].(cause := Some(es[j]))];
    RemovedAt(full, j);
  }

  lemma RemovedAt(es: seq<Error>, j: nat)
    requires j < |es|
    ensures |RemoveAt(es, j)| == |es| - 1
    ensures forall k | 0 <= k < |es| && k != j :: RemoveAt(es, j)[if k < j then k else k - 1] == es[k]
  {
  }

  lemma SetCauseMoves(es: seq<Error>, i: nat, j: nat)
    requires i < |es| && j < |es| && i != j
    ensures HeldAll(es) == HeldCause(es[i].cause) + HeldAll(WithCause(es, i, j))
  {
    var full := es[i := es[i].(cause := Some(es[j]))];
    HeldAllSplits(es, i);
    HeldAllSplits(full, i);
    assert RemoveAt(full, i) == RemoveAt(es, i);
    HeldAllSplits(full, j);
    var others, own := HeldAll(RemoveAt(es, i)), if es[i].raw.Some? then multiset{es[i].raw.value} else multiset{};
    assert Held(es[i]) == own + HeldCause(es[i].cause);
    assert Held(full[i]) == own + Held(es[j]);
    SumsCancel(own, Held(es[j]), others, HeldAll(WithCause(es, i, j)));
  }

  lemma SumsCancel(a: multiset<Ref>, b: multiset<Ref>, c: multiset<Ref>, d: multiset<Ref>)
    requires a + b + c == b + d
    ensures d == a + c
  {
    forall r ensures d[r] == (a + c)[r] {
      assert (a + b + c)[r] == (b + d)[r];
    }
  }

  lemma {:induction false} HeldAllSplits(es: seq<Error>, i: nat)
    requires i < |es|
    ensures HeldAll(es) == Held(es[i]) + HeldAll(RemoveAt(es, i))
  {
    if i == 0 {
      assert RemoveAt(es, 0) == es[1..];
    } else {
      HeldAllSplits(es[1..], i - 1);
      RestOfRemoved(es, i);
      Swap(Held(es[0]), Held(es[i]), HeldAll(RemoveAt(es[1..], i - 1)));
    }
  }

  lemma RestOfRemoved(es: seq<Error>, i: nat)
    requires 0 < i < |es|
    ensures var r := RemoveAt(es, i);
      r != [] && r[0] == es[0] && r[1..] == RemoveAt(es[1..], i - 1) && es[1..][i - 1] == es[i]
  {
  }

  lemma Swap(a: multiset<Ref>, b: multiset<Ref>, c: multiset<Ref>)
    ensures a + (b + c) == b + (a + c)
  {
  }

  lemma HeldAllOfMore(es: seq<Error>, e: Error)
    ensures HeldAll(es + [e]) == Held(e) + HeldAll(es)
  {
    HeldAllSplits(es + [e], |es|);
    assert RemoveAt(es + [e], |es|) == es;
  }

  predicate TargetsGrow(before: map<Ref, Value>, after: map<Ref, Value>) {
    forall r | r in before :: r in after && after[r] == before[r]
  }
}
