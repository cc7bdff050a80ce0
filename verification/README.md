# Verification of the napi-ohos core

This project models the parts of napi-ohos in which a mistake shows only over whole runs,
or only between two pieces of code that never call each other, and proves what they
promise.

| file | what it models |
|---|---|
| `TsfnLifecycle.dfy` | the handle of a threadsafe function shared by callers, aborters, the last drop and the engine's finalizer |
| `TsfnOperations.dfy` | one call, abort or last drop of that handle among all the others |
| `TsfnDispatch.dfy` | the payloads of a threadsafe function, from boxing to the JS call and its callback |
| `Wrappers.dfy`, `Sequences.dfy` | optional values, and sequences without repetition, for the other files |
| `NapiRefs.dfy` | the engine's table of reference counts, which the next two files work on |
| `AsyncCall.dfy` | an async `#[napi]` function: argument references, the tokio task and its panic watcher, the settlement |
| `ErrorRefs.dfy` | `Error` values that hold references to JS errors, with their cause chains |
| `AsyncWork.dfy` | thread-pool tasks: run, execute, cancel, abort, complete |
| `TokioRuntime.dfy`, `ModuleRegister.dfy` | the process-wide runtime, and environments registering and exiting at once |
| `ExportRegistration.dfy` | the exports object, filled through hash maps |
| `FnArgs.dfy` | the two generators that walk a parameter list: Rust glue and TypeScript signature |
| `ObjectCodec.dfy` | the generated writers and readers of objects, array structs and tagged enums |
| `JsonText.dfy`, `DocUnescape.dfy`, `TypeTemplate.dfy`, `JsDoc.dfy` | the text emitters of type generation, and the unescaping of doc literals |
| `TypedArrayLength.dfy`, `BigIntWords.dfy` | length and word arithmetic |

`dafny verify dfyconfig.toml` checks everything.

## How it is modelled

Code that updates objects, cells or buffers is a class with methods, each tied to a
function of the old state; loops are loops. What the functions promise over all runs is
then proved about them in lemmas. Where several threads interleave (the handle of a
threadsafe function, the tasks of an async call, registering environments, the schedule of
thread-pool work) a run is a sequence of atomic steps on a state value, with one program
counter per thread and the reader/writer lock explicit: no single method could stand for
all interleavings. What the engine, the clock of the scheduler or user code decides is a
parameter: whether a call is accepted, what status it gives, whether a conversion fails,
which entry of a hash map comes next. Calls on live engine handles succeed unless such a
parameter says otherwise.

## What the proofs found

Each of these is a lemma with the concrete case, next to one that says exactly when the
code does what it promises.

- Between the strong count of a threadsafe function's handle reaching zero and the body of
  `Drop`, the finalizer can run to its end without storing the flag; `Drop` then releases a
  function that is gone (`TsfnLifecycle.FinalizerCanSlipIntoDrop`, `LateReleaseExactly`).
- An exception whose message cannot be read, such as a thrown symbol, does not reach the
  closure of `call_async` or `call_with_return_value`: the closure is given another error, the
  reference made to the exception is lost, and a second exception stays pending
  (`TsfnDispatch.UndescribedExceptionIsLost`, `ThrownExceptionExactly`). An exception that is
  described can be caught but not thrown again: its status makes `throw_into` return
  (`ErrorRefs.Errors.CatchAndThrow`).
- The error of a stream reader holds a reference with a count of zero: it cannot be converted
  to a JS value, as a cause it makes `into_value` panic, and a clone of it leads to a use of a
  deleted reference (`ErrorRefs.Errors.RunThenDropAll`, `ToNapiValue`).
- A call of an async function that fails after its references were made, by a conversion say,
  leaks them (`AsyncCall.StartCall`).
- The cleanup hook is added once per process. The runtime is shut down only when the
  owner of the hook exits having been the only environment ever registered
  (`ModuleRegister.ShutdownExactly`, `NoSecondShutdown`); and a registration between the
  last decrement and the shutdown loses its runtime (`ShutdownCanOvertakeRegistration`),
  which an environment can lose at no other time (`RuntimeLostExactly`).
- A task that cancels itself in `resolve` or `reject` leaves its promise pending
  (`AsyncWork.SelfCancelLeavesPending`); a `cancel` of a task that was completed, and an
  abort of one that was cancelled and completed, ask the engine to cancel deleted work
  (`StaleExactly`, `LateCancelIsStale`); a signal given to several tasks
  does not reach those after the first completed one (`OnAbortAll`).
- An array struct without `use_nullable` that holds an absent element is not read back:
  the element reads as undefined, which is converted and not taken as absent
  (`ObjectCodec.RoundTripExactly`, `AbsentElementIsNotReadBack`). A present option of nothing is
  written as null, and survives only where its property is conditional (`NestedAbsenceExactly`).
- A `&mut Env` parameter, a `WeakReference` to the class, a type named `this` in lower case
  or a parameter named `this` puts the TypeScript signature out of step with the arguments
  the code takes (`FnArgs.BackEndsAgreeExactly`, `MutableEnvShiftsArguments`).
- Letter digits of `\u{..}` count from zero in `unescape_unicode`
  (`DocUnescape.NumberTakenExactly`, `UnescapeExactly`).
- The name fields of a `TypeDef` line are not escaped: a line is read back exactly when they are
  plain (`JsonText.RawFieldExactly`, `LineReadsBackExactly`).
- `Either3<f64, String, u32>` prints as `any` and not as `number | string`
  (`TypeTemplate.EitherExactly`, `PartlyAlikeIsAny`).
- `cleanup_lines` measures indentation in bytes and slices by it, so that a no-break space
  beside a blank makes it panic (`JsDoc.CleansExactly`, `WideIndentPanics`).
- `get_i128` gives a wrong value without the flag for two-word values outside the range, and
  raises the flag on the right value for -2^127 (`BigIntWords.ExactlyWhenItFits`,
  `FlagIsRightExactly`). The view of a typed array can exceed its buffer only in a buffer of
  `usize::MAX` bytes (`TypedArrayLength.WithinTheBuffer`).
- A top-level function named like a namespace of functions, a top-level class named like a
  namespace of classes, or two classes of one name in one namespace make the exports depend on
  the order of a hash map, and nothing else does (`ExportRegistration.FunctionOrderExactly`,
  `BothPassesExactly`). The constructor found under a class name depends on it too if two
  classes, of whatever namespaces, use the name (`RegisteredExactly`).

## Model

| member | source | states |
|---|---|---|
| `TsfnLifecycle.InvKept` | crates/napi/src/threadsafe_function.rs:63-140 | every step of every caller, aborter, dropper and of the finalizer keeps the invariant, hence every interleaving does: lock owners are exactly those in a critical section, an issued call or release saw the flag down, at most one release, and a flag the finalizer did not store comes with one |
| `TsfnLifecycle.AbortedIsForever` | crates/napi/src/threadsafe_function.rs:81-103 | once stored, the flag never reverts |
| `TsfnLifecycle.EveryRunIsSafe` | crates/napi/src/threadsafe_function.rs:308-421 | in every interleaving Rust releases the function at most once, neither calls nor aborts it after the finalizer completed, and the callback box is freed exactly when the finalizer completes; a flag that the finalizer did not store means the function was released; and when the last clone and its drop are gone, it was released or the finalizer had told the handle |
| `TsfnOperations.CallIssuesOnce` | crates/napi/src/threadsafe_function.rs:440-465 | whatever runs beside it, one call asks the engine once if and only if the flag was down when it took the lock, and the flag stays as it was until the lock is given back |
| `TsfnOperations.AbortReleasesOnce` | crates/napi/src/threadsafe_function.rs:408-421 | whatever runs beside it, one abort ends with the flag stored, having released the function with mode abort once if and only if the flag was down |
| `TsfnOperations.LastDropReleasesOnce` | crates/napi/src/threadsafe_function.rs:118-140 | the drop of the last clone, once over, has released the function once if and only if there is one and the flag was down |
| `TsfnOperations.NobodyIsStuck` | crates/napi/src/threadsafe_function.rs:81-103 | in every reachable state each thread with a clone or in the last drop can take a step, the lock is granted exactly when nobody holds it against the taker, and the finalizer waits for the lock alone |
| `TsfnOperations.ClonesComeAndGo` | crates/napi/src/threadsafe_function.rs:118-140 | a new clone can be used at once and keeps the other's drop from being the last; whoever drops one leaves the handle to the rest |
| `TsfnLifecycle.AtomicDropIsSafe` | crates/napi/src/threadsafe_function.rs:118-140 | with the last drop and its body as one step, `Drop` does not release after the finalizer either |
| `TsfnLifecycle.LateReleaseExactly` | crates/napi/src/threadsafe_function.rs:118-140 | after the finalizer completed, a late release is still to come if and only if a drop is between its two halves and the flag is down |
| `TsfnLifecycle.FinalizerCanSlipIntoDrop` | crates/napi/src/threadsafe_function.rs:689-709 | a run in which the finalizer's failed upgrade falls between the two halves of the drop, which then releases late |
| `TsfnDispatch.CallQueue.constructor` | crates/napi/src/threadsafe_function.rs:308-398 | a new function has no payloads |
| `TsfnDispatch.CallQueue.Call` | crates/napi/src/threadsafe_function.rs:440-533 | an aborted handle boxes nothing and answers closing; otherwise one payload is boxed, and queued if the engine accepts it |
| `TsfnDispatch.CallQueue.CallJsCb` | crates/napi/src/threadsafe_function.rs:711-825 | one dispatch changes the record of its own payload alone, to what `Settle` says, takes it off the queue, and leaves an exception pending if and only if a closure was due and reading what was thrown or returned, or the closure, left one |
| `TsfnDispatch.CallQueue.Execute` | crates/napi/src/threadsafe_function.rs:711-882 | the statements of one dispatch come to what `Settle` says in closed form, for every answer of engine and user code: a message that cannot be read, a conversion that throws |
| `TsfnDispatch.CallQueue.PassValues` | crates/napi/src/threadsafe_function.rs:758-809 | the JS function is called once and the closure runs once; a thrown exception is cleared, and the closure is given it if its message can be read, and otherwise the error of reading it, the reference made to the exception being lost; what reading or the closure leaves pending stays so |
| `TsfnDispatch.CallQueue.PassError` | crates/napi/src/threadsafe_function.rs:810-823 | without values no closure runs, a waiting sender is dropped, and the error goes to the function or to the engine |
| `TsfnDispatch.CallQueue.RunSender` | crates/napi/src/threadsafe_function.rs:629-661 | the closure of `call_async` gives its receiver one outcome, an error being sent or the sender dropped depending on the callee |
| `TsfnDispatch.CallQueue.HandleStatus` | crates/napi/src/threadsafe_function.rs:827-882 | a pending status clears the exception and reports it once, a failure is reported once if its error can be built; under any other status a pending exception stays |
| `TsfnDispatch.RunKeepsInv` | crates/napi/src/threadsafe_function.rs:440-825 | every sequence of calls and dispatches keeps each record at boxed, refused, or settled once |
| `TsfnDispatch.EveryPayload` | crates/napi/src/threadsafe_function.rs:711-825 | after any run: unboxed once if taken with a live env, never otherwise; the closure run once, given the value, the exception, the error of reading its message or the conversion error, if arguments were produced, never otherwise; an awaiting receiver served exactly once; a reference leaked, or an exception left pending, only where a closure ran, and exactly when its cases say |
| `TsfnDispatch.ArgumentsExactly` | crates/napi/src/threadsafe_function.rs:730-823 | which arguments the JS function is called with, or none, by callee, payload and conversion |
| `TsfnDispatch.GivenExactly` | crates/napi/src/threadsafe_function.rs:776-803 | the closure is given the value if and only if the function returned one that converts, and otherwise the exception, the error of reading it, or of converting |
| `TsfnDispatch.OutcomeExactly` | crates/napi/src/threadsafe_function.rs:629-661 | the receiver gets the value under that same condition, an error from a handled callee only, and otherwise the end of its sender |
| `TsfnDispatch.ReportsExactly` | crates/napi/src/threadsafe_function.rs:802-882 | how often the engine is told: of a failed closure, of an error no function takes, of an exception no closure takes, of a failed last call whose error can be built |
| `TsfnDispatch.UndispatchedDidNothing` | crates/napi/src/threadsafe_function.rs:440-533 | a payload not dispatched has done nothing, but that the sender of an awaited error is gone |
| `TsfnDispatch.ThrownExceptionExactly` | crates/napi/src/threadsafe_function.rs:760-882 | an exception thrown by the JS function is cleared once; without a closure it goes to the engine; a closure is given it if and only if its message can be read, and a reference is lost if and only if one was made and the message cannot |
| `TsfnDispatch.UndescribedExceptionIsLost` | crates/napi/src/threadsafe_function.rs:776-809 | a `call_async` whose function throws a value that cannot be made a string: the receiver gets another error, a reference is lost and an exception left pending |
| `AsyncCall.BuildArgsArray` | crates/backend/src/codegen/fn.rs:113-125 | every slot of the reference array is written once, in order and in bounds, with a new reference of count one; or the call fails at the first null or refused value, with the references before it made |
| `AsyncCall.StartCall` | crates/backend/src/codegen/fn.rs:183-190 | references first, then conversions and the deferred: a call leaks some reference if and only if it fails after the first was made and before it is handed to the executor |
| `AsyncCall.DropContainer` | crates/backend/src/codegen/fn.rs:94-110 | each reference goes from one to zero and is deleted once, and no other is touched |
| `AsyncCall.NewRefsAreHeldOnce` | crates/backend/src/codegen/fn.rs:905-913 | what the array builder leaves is what the container's drop demands, and both together leave the engine as it was |
| `AsyncCall.Deferred.Settle` | crates/napi/src/js_values/deferred.rs:254-327 | one dispatch runs the resolver if there is a value, releases the function, resolves exactly when resolver, conversion and release answered well, rejects exactly when nothing was resolved, and runs the finalize callback last; it empties the shared slot |
| `AsyncCall.EverySettlement` | crates/napi/src/tokio_runtime.rs:257-321 | over every interleaving of task, watcher and JS thread at most one message is queued; when it is processed the function was released once, the promise settled once unless the engine refuses both, and the finalize callback run once |
| `AsyncCall.SettledAsSent` | crates/napi/src/tokio_runtime.rs:280-318 | over every interleaving a message is sent if and only if the future finished, or it panicked and the watcher woke; once processed, the promise was resolved if and only if the future had finished with a value and resolver, conversion, release and engine answered well to the one dispatch, and was rejected otherwise |
| `AsyncCall.BothWaysSettle` | crates/napi/src/tokio_runtime.rs:257-321 | both ways, by the future and by a panic, can be gone to a processed settlement |
| `AsyncCall.ReferencesLiveForTheCall` | crates/napi/src/js_values/deferred.rs:123-202 | the references of a call stand until its settlement is processed, and are exactly what is gone afterwards |
| `NapiRefs.Engine.Unreference` | crates/napi/src/error.rs:35-53 | giving up a live reference lowers its count by one and reports what is left |
| `NapiRefs.Engine.DeleteReference` | crates/napi/src/error.rs:35-53 | deleting a live reference removes it alone |
| `ErrorRefs.Errors.DropError` | crates/napi/src/error.rs:35-53 | dropping an error gives up its own reference and those of its causes, the last holder deleting, and keeps the account of counts and holders |
| `ErrorRefs.Errors.TryClone` | crates/napi/src/error.rs:260-276 | a clone holds the reference too, without the cause, and the engine counts it; from a clone on, the reference of a stream reader is one short |
| `ErrorRefs.Errors.FromUnknown` | crates/napi/src/error.rs:134-169 | the error mirrors the JS value: a reference to it and, down its cause chain, to each cause; `MirrorPointsDownTheChain` reads the chain off |
| `ErrorRefs.MirrorPointsDownTheChain` | crates/napi/src/error.rs:134-169 | an error made from a JS value or an exception refers to the values of its cause chain in order, as far as references are made and reading the next does not throw, and to no others |
| `ErrorRefs.Errors.ExtractErrorCause` | crates/napi/src/error.rs:676-695 | a cause is taken unless it is absent or reading it throws, in which case nothing stays held |
| `ErrorRefs.Errors.FromThrown` | crates/napi/src/threadsafe_function.rs:776-799 | the error made of a caught exception refers to it and to its causes if its message can be read; otherwise the error has no reference and the one that was made is lost |
| `ErrorRefs.Errors.FromReader` | crates/napi/src/bindgen_runtime/js_values/stream/read.rs:602-619 | the error a stream reader makes refers to the rejection with a count of zero, one short of its holder |
| `ErrorRefs.Errors.ToNapiValue` | crates/napi/src/error.rs:72-100 | the referenced value comes back, or a new error object with the converted cause, and it fails if and only if the reference counts zero; every reference of the consumed error is given up in all cases |
| `ErrorRefs.Errors.IntoValue` | crates/napi/src/error.rs:398-473 | as above, but a reference to something that is not an error is given up and a new error object made; it panics if and only if a new object is due and the cause does not convert |
| `ErrorRefs.Errors.MakeError` | crates/napi/src/error.rs:436-473 | the new error object carries the converted cause, once, or a cause that does not convert makes it panic |
| `ErrorRefs.ConvertsToItsChain` | crates/napi/src/error.rs:72-100 | an error converts if and only if its chain does not end in a reference that counts zero; the result is as many new objects, each the cause of the one before, as there are errors without a reference in front, ending in the value the first reference leads to |
| `ErrorRefs.IntoValueMakesTheChain` | crates/napi/src/error.rs:398-473 | `into_value` gives back the value of a reference to an error; for any other error, also one whose reference leads to something else, a new object with the chain of its causes behind it |
| `ErrorRefs.Errors.CreateError` | crates/napi/src/env.rs:1046-1063 | the referenced value, or a new error object without the cause; the consumed error gives up its references |
| `ErrorRefs.Errors.ThrowInto` | crates/napi/src/error.rs:483-521 | a pending status throws nothing, otherwise an exception already pending is what is thrown, otherwise the error; in all cases the references are given up |
| `ErrorRefs.Errors.CatchAndThrow` | crates/napi/src/error.rs:483-490 | the error a callback is given for a caught exception has the pending status: thrown again, it throws nothing |
| `ErrorRefs.Errors.SetCause` | crates/napi/src/error.rs:55-59 | the cause moves in, the old one is dropped with its references |
| `ErrorRefs.OneTakesTheOther` | crates/napi/src/error.rs:55-59 | the one error has the other as its cause, all others are as they were |
| `ErrorRefs.Errors.ThereAndBack` | crates/napi/src/error.rs:72-169 | a JS value taken as an error and handed back is the same value, and the engine's counts are as before, whatever other errors are about, as long as no reader's error was cloned |
| `ErrorRefs.Errors.RunThenDropAll` | crates/napi/src/error.rs:35-53 | after any sequence of making, cloning, consuming and re-causing errors, dropping what is left has used a deleted reference if and only if a stream reader's error was cloned; if not, the engine is left with exactly the references of exceptions that could not be described |
| `ErrorRefs.AccountIsExact` | crates/napi/src/error.rs:35-53 | the holders determine the engine's table, readers' references included: equal holders, equal counts; no holder, no reference |
| `ErrorRefs.SetCauseMoves` | crates/napi/src/error.rs:55-59 | moving a cause changes no count but those of the cause it replaces |
| `AsyncWork.Work.constructor` | crates/napi/src/async_work.rs:74-123 | a queued task starts unsettled, with its handles and an unwritten slot, cancelled already if its signal has fired |
| `AsyncWork.Work.CancelWork` | crates/napi/src/async_work.rs:63-70 | the status is set first, and work not started is withdrawn |
| `AsyncWork.Work.OnAbort` | crates/napi/src/bindgen_runtime/js_values/task.rs:216-228 | an abort cancels a task unless it completed |
| `AsyncWork.OnAbortAll` | crates/napi/src/bindgen_runtime/js_values/task.rs:187-237 | of the tasks that share a signal exactly those before the first completed one are cancelled |
| `AsyncWork.Work.CompleteImpl` | crates/napi/src/async_work.rs:209-268 | one completion takes the handles, settles, runs `finally` and deletes as its answers allow, and reads the slot only for a task that was not cancelled |
| `AsyncWork.ReadAfterWrite` | crates/napi/src/async_work.rs:192-196 | in every schedule, when work can complete without being aborted its slot was written |
| `AsyncWork.RunKeepsInv` | crates/napi/src/async_work.rs:192-268 | in every schedule work is either pending and untouched or finished by one completion |
| `AsyncWork.EveryCompletion` | crates/napi/src/async_work.rs:209-268 | whatever is cancelled before or after, one completion fixes the number of settlements, their kind, the call of the task (`resolve` for a computed value, `reject` for an error, none for a cancelled task), and the runs of `finally` and delete |
| `AsyncWork.GoodCompletion` | crates/napi/src/async_work.rs:209-268 | with engine and task succeeding: one settlement, one `finally`, one delete, and the AbortError if and only if a cancel came before completion |
| `AsyncWork.AskedExactly` | crates/napi/src/async_work.rs:63-70 | a task counts as cancelled in time if and only if its signal had fired before the start, or a cancel or an abort is among the steps before completion |
| `AsyncWork.WithdrawnNeverExecutes` | crates/napi/src/async_work.rs:63-70 | work still queued when a cancellation reaches the engine is never executed in any run, its slot stays unwritten and its task uncalled |
| `AsyncWork.CanComplete` | crates/napi/src/async_work.rs:192-268 | whatever was cancelled, work that is not done can still be completed |
| `AsyncWork.SelfCancelLeavesPending` | crates/napi/src/async_work.rs:241-261 | a task that cancels itself is finished with its promise unsettled |
| `AsyncWork.StaleExactly` | crates/napi/src/async_work.rs:63-70 | over every run past a completion the engine is asked to cancel deleted work if and only if the completion deleted it and either `cancel` is called late, or the task had been cancelled in time and an abort reaches the engine |
| `AsyncWork.LateCancelIsStale` | crates/napi/src/async_work.rs:63-70 | one late `cancel` of a task that completed on its own is enough |
| `TokioRuntime.SuppliedRuntimeRunsOnce` | crates/napi/src/tokio_runtime.rs:12-100 | over any sequence of starts, stops and supplies, the supplied runtime is installed at most once, and only the first one |
| `TokioRuntime.InstalledExactly` | crates/napi/src/tokio_runtime.rs:12-100 | over any sequence of operations one runtime is installed for each that creates one, the first access or a start after a stop, and the supplied one is among them if and only if one was created after it was supplied |
| `TokioRuntime.RunningExactly` | crates/napi/src/tokio_runtime.rs:87-100 | over any sequence of operations the runtime is running if and only if the last switch was a start, or there was no switch and something has asked for it |
| `ModuleRegister.InvKept` | crates/napi/src/bindgen_runtime/module_register.rs:331-333 | every step of every environment keeps the counts of environments, of CustomGC functions and the state of the runtime in step |
| `ModuleRegister.EveryRegistration` | crates/napi/src/bindgen_runtime/module_register.rs:181-185 | one environment at most passes the wait before the flag is stored; the CustomGC function is made at most once; the counter never falls below the present environments; who needs the runtime has it, but for those that started it within a shutdown window |
| `ModuleRegister.AtomicExitKeepsRuntime` | crates/napi/src/bindgen_runtime/module_register.rs:653-659 | with a last decrement and its shutdown as one step, every environment that needs the runtime has it |
| `ModuleRegister.RuntimeLostExactly` | crates/napi/src/bindgen_runtime/module_register.rs:653-659 | in every reachable state an environment that needs the runtime and has it can lose it if and only if some exit is between its last decrement and its shutdown |
| `ModuleRegister.ShutdownExactly` | crates/napi/src/bindgen_runtime/module_register.rs:653-659 | an exit shuts the runtime down if and only if it owns the hook and no other environment ever registered |
| `ModuleRegister.ShutdownByHistory` | crates/napi/src/bindgen_runtime/module_register.rs:534-573 | told from the run alone: an exit shuts the runtime down if and only if the environment was the first to look for the hook and the only one ever to enter |
| `ModuleRegister.EveryoneCanRegister` | crates/napi/src/bindgen_runtime/module_register.rs:331-333 | in every reachable state each environment that entered and has not left can still be registered: whoever waits waits for one that can go on |
| `ModuleRegister.NoSecondShutdown` | crates/napi/src/bindgen_runtime/module_register.rs:534-573 | after the owner of the hook has left, nothing shuts the runtime down |
| `ModuleRegister.ShutdownCanOvertakeRegistration` | crates/napi/src/bindgen_runtime/module_register.rs:653-659 | a run in which a new environment loses its runtime to a shutdown under way |
| `ExportRegistration.Registry.RegisterClass` | crates/napi/src/bindgen_runtime/module_register.rs:243-261 | after any calls a class of a type and namespace has all its properties in order, the last name, and an iterator if any piece had one |
| `ExportRegistration.PropsOfCall` | crates/napi/src/bindgen_runtime/module_register.rs:243-261 | the properties of one call stand after those of the calls before and in front of those of the calls after |
| `ExportRegistration.GroupCallbacks` | crates/napi/src/bindgen_runtime/module_register.rs:341-353 | the groups are the registrations of each namespace, in order |
| `ExportRegistration.Engine.ExportFunctions` | crates/napi/src/bindgen_runtime/module_register.rs:354-411 | the heap after the function pass, for any order of the groups |
| `ExportRegistration.Engine.ExportClasses` | crates/napi/src/bindgen_runtime/module_register.rs:416-507 | the heap after the class pass, which finds the namespaces of the first |
| `ExportRegistration.Engine.Register` | crates/napi/src/bindgen_runtime/module_register.rs:335-507 | both passes over what was registered |
| `ExportRegistration.GroupsShow` | crates/napi/src/bindgen_runtime/module_register.rs:354-411 | whatever groups were walked so far, the exports are the naive registration restricted to them, but for the names at which a function clashes with a namespace |
| `ExportRegistration.ClassesShow` | crates/napi/src/bindgen_runtime/module_register.rs:416-507 | the class pass adds the classes to the exports, over functions of the same name and as new objects, in the namespaces that are there, and the namespaces it makes take the place of functions of their name |
| `ExportRegistration.ClassOrderDoesNotMatter` | crates/napi/src/bindgen_runtime/module_register.rs:416-507 | if classes of one name in one namespace are alike, any two walks of the classes come to the same |
| `ExportRegistration.LastFunctionWins` | crates/napi/src/bindgen_runtime/module_register.rs:354-411 | the naive registration holds, under each name of each namespace, the function registered last |
| `ExportRegistration.LastClassWins` | crates/napi/src/bindgen_runtime/module_register.rs:416-507 | after a walk each name holds the class walked last, with its own constructor, members and iterator |
| `ExportRegistration.CtorIsTheFirst` | crates/napi/src/bindgen_runtime/module_register.rs:448-454 | a class is defined with the first constructor among its properties, or none |
| `ExportRegistration.MemberHasItsPlace` | crates/napi/src/bindgen_runtime/module_register.rs:448-455 | every property that is no constructor is a member, in order |
| `ExportRegistration.ClassTreesExactly` | crates/napi/src/bindgen_runtime/module_register.rs:416-507 | any two walks of the classes come to the same if and only if classes of one name in one namespace are one class |
| `ExportRegistration.ExportsShow` | crates/napi/src/bindgen_runtime/module_register.rs:335-507 | after both passes the exports are those of the walk of the classes laid over the functions, every namespace one object, also where a class takes the place of a namespace of functions |
| `ExportRegistration.EveryOrder` | crates/napi/src/bindgen_runtime/module_register.rs:335-507 | with top-level names and namespaces apart and clashing classes alike, for every order of the hash maps the exports are those of registering one entry after the other, the later function of a name and the class over it winning, and each namespace mentioned is one object, made once for both passes |
| `ExportRegistration.BothPassesExactly` | crates/napi/src/bindgen_runtime/module_register.rs:335-507 | whatever was registered, any two orders of both passes leave the same exports if and only if a top-level function has the name of a namespace of functions only where a class takes its place, no top-level class has the name of a namespace of classes, and classes of one name in one namespace are one class |
| `ExportRegistration.TopAfterBoth` | crates/napi/src/bindgen_runtime/module_register.rs:335-507 | a top-level name that no namespace is made for in the class pass is, in the end, the class last put there, or what the function pass left |
| `ExportRegistration.FunctionOrderExactly` | crates/napi/src/bindgen_runtime/module_register.rs:354-411 | any two walks of the function groups leave the same exports if and only if no top-level function is named like a namespace |
| `ExportRegistration.RegisteredExactly` | crates/napi/src/bindgen_runtime/module_register.rs:414-513 | any two walks leave the same constructor for every class name if and only if classes of one name are one class, in one namespace |
| `FnArgs.GenArgConversions` | crates/backend/src/codegen/fn.rs:268-435 | generation succeeds exactly for accepted parameter lists; each parameter is made from its source, a positional one from the argument at its place; the references kept are those of the parameters that need one |
| `FnArgs.KeptExactly` | crates/backend/src/codegen/fn.rs:275-420 | the value of a JS argument is kept if and only if the parameter at its place has a type that is a reference, mutable or not, other than `&Env`, or a vector of references; the receiver, if it is borrowed or a `This` is not made of a path |
| `FnArgs.KeptInOrder` | crates/backend/src/codegen/fn.rs:408-411 | arguments are kept in order, each once |
| `FnArgs.AcceptedExactly` | crates/backend/src/codegen/fn.rs:300-346 | a function is refused if and only if a type in it is a `Reference` outside a class, a `This` of a primitive or a borrowed string |
| `FnArgs.SourcesExactly` | crates/backend/src/codegen/fn.rs:296-426 | what each parameter is made from, read off its type: the environment, the borrowed environment, the class's own handle, the receiver, or the argument at the number of those taken before |
| `FnArgs.GenTsFuncArgs` | crates/backend/src/typegen/fn.rs:192-295 | the arguments type generation collects |
| `FnArgs.Collect` | crates/backend/src/typegen/fn.rs:55-78 | an argument named `this` is split off, and the last required argument ends where the optional suffix begins |
| `FnArgs.Print` | crates/backend/src/typegen/fn.rs:30-53 | a `?` is printed exactly on the arguments of the longest optional suffix, and on none in a setter |
| `FnArgs.GenSignature` | crates/backend/src/typegen/fn.rs:30-295 | the printed signature of a whole function |
| `FnArgs.ListedExactly` | crates/backend/src/typegen/fn.rs:192-295 | the signature lists a parameter if and only if JS passes it by position and it is none of the exceptions |
| `FnArgs.OptionalExactly` | crates/backend/src/typegen/fn.rs:192-295 | an argument's type is optional if and only if, behind references, parentheses and `FnArgs`, it is an `Option` of a type |
| `FnArgs.ListedAs` | crates/backend/src/typegen/fn.rs:192-295 | a listed parameter has its own name and the mark of its type; a `This` is printed in a plain function alone |
| `FnArgs.BackEndsAgreeExactly` | crates/backend/src/codegen/fn.rs:296-426 | signature and generated code agree position by position if and only if no parameter is an exception |
| `FnArgs.IndexIsPlace` | crates/backend/src/codegen/fn.rs:296-298 | the indices handed to `get_arg` are 0, 1, .. without gaps and below the number of parameters |
| `FnArgs.SignatureMatchesCode` | crates/backend/src/codegen/fn.rs:296-426 | the k-th parameter of the signature is the one converted from the k-th JS argument |
| `FnArgs.MutableEnvShiftsArguments` | crates/backend/src/codegen/fn.rs:473-486 | a `&mut Env` shifts the signature by one argument |
| `ObjectCodec.GenPlan` | crates/backend/src/codegen/struct.rs:514-740 | the per-field loop splits the fields into those always set and those set when present |
| `ObjectCodec.PlanIndices` | crates/backend/src/codegen/struct.rs:514-740 | every field is in exactly one of the two, and is read leniently exactly when it is not always set |
| `ObjectCodec.FieldWritten` | crates/backend/src/codegen/struct.rs:745-811 | a field's property is there if and only if it is always set or present, and holds its value |
| `ObjectCodec.ObjectRoundTrips` | crates/backend/src/codegen/struct.rs:514-811 | objects are read back if and only if their fields survive |
| `ObjectCodec.EnumRoundTrips` | crates/backend/src/codegen/struct.rs:997-1298 | tagged objects are read back, as the same variant with the same fields, if and only if their fields survive |
| `ObjectCodec.ArrayRoundTrips` | crates/backend/src/codegen/struct.rs:1386-1526 | array structs are read back if and only if they hold no absent element without `use_nullable` and their elements survive |
| `ObjectCodec.RoundTripExactly` | crates/backend/src/codegen/struct.rs:514-811 | for every well-formed type, nested at will and in both nullable modes, reading what was written gives the value if and only if no array struct without `use_nullable` in it holds an absent element, and no present option in it is written as null but where its property or element tells it is there |
| `ObjectCodec.ReadIsTyped` | crates/backend/src/codegen/struct.rs:514-811 | whatever is read, from any JS value at all, is a value of its type |
| `ObjectCodec.ObjectReadExactly` | crates/backend/src/codegen/struct.rs:597-675 | an object type reads any JS value as these fields if and only if each that is always set has a property neither absent nor undefined that converts, and each other one is absent or converts |
| `ObjectCodec.EnumReadExactly` | crates/backend/src/codegen/struct.rs:1267-1292 | an enum reads any JS value as a variant if and only if the tag is there and is that variant's, and its fields read |
| `ObjectCodec.EnumRefusals` | crates/backend/src/codegen/struct.rs:1275-1288 | an enum refuses an absent tag, a tag that is no string and a tag that names no variant, each with its error |
| `ObjectCodec.MissingFieldIsNamed` | crates/backend/src/codegen/struct.rs:606-614 | the first field that is always set and not there is the one the error names |
| `ObjectCodec.ArrayReadExactly` | crates/backend/src/codegen/struct.rs:1386-1526 | an array struct reads any array element by element, and only past its end is an option absent |
| `ObjectCodec.ElementWritten` | crates/backend/src/codegen/struct.rs:1386-1526 | each element written holds its value, or was never set |
| `ObjectCodec.RereadExactly` | crates/backend/src/codegen/struct.rs:514-811 | what was read from any JS value, written and read again, is the same if and only if it survives |
| `ObjectCodec.NestedAbsenceExactly` | crates/backend/src/codegen/struct.rs:514-811 | a field that holds a present option of nothing is read back if and only if its property is conditional |
| `ObjectCodec.AbsentElementIsNotReadBack` | crates/backend/src/codegen/struct.rs:1386-1526 | the smallest value that is not read back |
| `JsonText.EscapeJson` | crates/backend/src/typegen.rs:46-72 | the loop writes the escape of each character in turn |
| `JsonText.EscapeRoundTrip` | crates/backend/src/typegen.rs:46-72 | a JSON reader gets every string of Unicode scalar values back from its escape, surrogate pairs included |
| `JsonText.EscapedIsPrintable` | crates/backend/src/typegen.rs:46-72 | an escape is printable ASCII, so a definition stays on its line |
| `JsonText.EscapeSize` | crates/backend/src/typegen.rs:46-72 | printable ASCII stays as it is but for quote and backslash, seven characters take the short form, the rest six characters a code unit |
| `JsonText.RawFieldExactly` | crates/backend/src/typegen.rs:227-251 | an unescaped field is read back if and only if it has no quote, backslash or control character |
| `JsonText.Display` | crates/backend/src/typegen.rs:227-251 | the members of a line, in order, the absent ones left out |
| `JsonText.SelfReadingIsPlain` | crates/backend/src/typegen.rs:227-251 | whatever follows it, a field that a reader makes of itself has no quote, backslash or control character |
| `JsonText.LineReadsBackExactly` | crates/backend/src/typegen.rs:227-251 | a line parses to exactly its fields if and only if those it shows unescaped are free of quotes, backslashes and control characters |
| `JsonText.FieldsUnderTheirNames` | crates/backend/src/typegen.rs:227-251 | a reader of the line finds each field of the definition under its own name, and nothing under any other |
| `DocUnescape.UnescapeUnicode` | crates/macro/src/parser/mod.rs:451-478 | one to six digits and the character that ends them, or nothing |
| `DocUnescape.UnescapeOne` | crates/macro/src/parser/mod.rs:425-443 | one escape after its backslash: its character and what follows, or nothing |
| `DocUnescape.EscapeTakenExactly` | crates/macro/src/parser/mod.rs:425-478 | an escape is taken if and only if it is one of six characters, or one to six hexadecimal digits in braces that come to a character |
| `DocUnescape.TryUnescape` | crates/macro/src/parser/mod.rs:407-449 | the text pushed piece by piece, without the quotes at its ends |
| `DocUnescape.NumberTakenExactly` | crates/macro/src/parser/mod.rs:455-458 | a number is taken for what it is if and only if its digits are decimal |
| `DocUnescape.DigitsTakenShort` | crates/macro/src/parser/mod.rs:455-458 | the digits known are the hexadecimal ones, a letter taken for ten less than it means |
| `DocUnescape.UnescapeExactly` | crates/macro/src/parser/mod.rs:407-478 | a quoted literal, however each character was written and whatever it ends in, comes back as the text it means if and only if its numeric escapes are decimal |
| `TypeTemplate.FillTy` | crates/backend/src/typegen.rs:426-442 | the text is the simultaneous filling of all holes, or `any` for a wrong number of arguments |
| `TypeTemplate.SegmentsMakeTheTemplate` | crates/backend/src/typegen.rs:426-442 | the pieces between holes, with the holes put back, are the template |
| `TypeTemplate.SegmentsAreWhole` | crates/backend/src/typegen.rs:426-442 | no piece holds a hole: every hole was filled |
| `TypeTemplate.FilledLength` | crates/backend/src/typegen.rs:426-442 | the length is the template's less two a hole plus the arguments' |
| `TypeTemplate.ArgumentIsThere` | crates/backend/src/typegen.rs:434-438 | each argument is copied word for word, braces and all |
| `TypeTemplate.HasherIsIgnored` | crates/backend/src/typegen.rs:620-628 | the third argument of a map and the second of a set change nothing |
| `TypeTemplate.ArgumentsAreFilledIn` | crates/backend/src/typegen.rs:590-640 | no other argument is dropped; a function that says nothing of itself takes and gives anything, a returned unit is void, a type without a hole is itself |
| `TypeTemplate.EitherExactly` | crates/backend/src/typegen.rs:606-618 | `EitherN` prints one type if its arguments are alike, their union if all are different, and `any` otherwise |
| `TypeTemplate.EitherNeverNarrows` | crates/backend/src/typegen.rs:606-618 | under any reading that takes `any` as everything and these arguments joined by bars as their union, what `EitherN` prints takes every value its arguments take, and exactly those if and only if they are all alike, all different, or take everything |
| `TypeTemplate.PartlyAlikeIsAny` | crates/backend/src/typegen.rs:606-618 | two alike of three arguments give `any` |
| `JsDoc.MiddleCutsBlanks` | crates/backend/src/typegen.rs:169-172 | only blank lines are cut off at the ends |
| `JsDoc.CleanedIsDedented` | crates/backend/src/typegen.rs:162-197 | no blank line first or last, blank lines empty, every other line without the same bytes of whitespace, all they have in common: differences of indentation stay |
| `JsDoc.Idempotent` | crates/backend/src/typegen.rs:162-197 | cleaning what was cleaned changes nothing |
| `JsDoc.CleansExactly` | crates/backend/src/typegen.rs:174-191 | cleaning does not panic if and only if the common indentation ends between characters on every line that is not blank |
| `JsDoc.NarrowIndentCleans` | crates/backend/src/typegen.rs:174-191 | single-byte indentation never panics |
| `JsDoc.WideIndentPanics` | crates/backend/src/typegen.rs:186-187 | a no-break space beside a blank does |
| `JsDoc.Comment.AddBlock` | crates/backend/src/typegen.rs:150-160 | a cleaned block is added unless it is empty, and all blocks stay as clean as can be |
| `JsDoc.Comment.Display` | crates/backend/src/typegen.rs:199-225 | the loops write the rendered comment |
| `JsDoc.ClosedOnceAtTheEnd` | crates/backend/src/typegen.rs:199-225 | whatever the lines hold, the comment closes exactly once, at its end |
| `JsDoc.CommentReadsBack` | crates/backend/src/typegen.rs:199-225 | a reader of the comment finds the blocks it was made of, every line in its place, with its closes escaped |
| `JsDoc.EscapesComeOut` | crates/backend/src/typegen.rs:206-208 | taking the escapes out gives the line again, unless it held one of its own |
| `JsDoc.EscapedExactly` | crates/backend/src/typegen.rs:206-208 | escaping changes exactly the lines that hold a close |
| `TypedArrayLength.WithinTheBuffer` | crates/napi/src/js_values/arraybuffer.rs:25-53 | the length is at most the one reported, and its bytes lie in the buffer except if and only if the buffer takes all of the address space and the byte length overflows |
| `TypedArrayLength.SizeIsInTheName` | crates/napi/src/js_values/arraybuffer.rs:13-23 | an element has the bits its class is named after; a kind that is not known counts bytes |
| `TypedArrayLength.FittingIsKept` | crates/napi/src/js_values/arraybuffer.rs:43-46 | a length that fits is left alone |
| `TypedArrayLength.Idempotent` | crates/napi/src/js_values/arraybuffer.rs:25-53 | normalizing twice is normalizing once |
| `TypedArrayLength.LongestThatFits` | crates/napi/src/js_values/arraybuffer.rs:43-52 | a shortened length is the reported bytes in elements, or the longest that fits |
| `TypedArrayLength.TwinsAgree` | crates/napi/src/bindgen_runtime/js_values/arraybuffer.rs:100-130 | the second copy of the function gives the same elements, and bytes that are theirs and lie in the buffer |
| `BigIntWords.JsBigInt.GetWords` | crates/napi/src/js_values/bigint.rs:157-177 | sign and words of the value, whatever count was stored before |
| `BigIntWords.JsBigInt.Assemble` | crates/napi/src/js_values/bigint.rs:201-216 | the sixteen bytes read as the low two words in either byte order |
| `BigIntWords.JsBigInt.GetI128` | crates/napi/src/js_values/bigint.rs:198-230 | the value is the BigInt, sign and all, modulo 2^128 in two's complement; the flag is up beyond two words and for a negated 2^127 |
| `BigIntWords.JsBigInt.GetU128` | crates/napi/src/js_values/bigint.rs:232-255 | the magnitude modulo 2^128, flagged if and only if that is not all of it |
| `BigIntWords.ExactlyWhenItFits` | crates/napi/src/js_values/bigint.rs:198-230 | the value is right if and only if the BigInt fits; wrong without the flag exactly for two words that do not fit; right with the flag exactly for -2^127 |
| `BigIntWords.FlagIsRightExactly` | crates/napi/src/js_values/bigint.rs:218-229 | the flag tells the truth if and only if there are more than two words or the value lies strictly between -2^127 and 2^127 |
| `BigIntWords.U128WithSign` | crates/napi/src/bindgen_runtime/js_values/bigint.rs:175-197 | the created BigInt is the number meant, zero without a sign |
| `BigIntWords.I128ThereAndBack` | crates/napi/src/env.rs:149-155 | every i128 goes to JavaScript and back unchanged in either byte order, flagged for the least one only |
| `BigIntWords.U128ThereAndBack` | crates/napi/src/env.rs:159-164 | every u128 does, never flagged |

## Left out

- The foreign functions and symbol loading in `crates/sys`, the command line tool, examples, build scripts: nothing of their own to prove.
- Token streams, spans, attributes and diagnostics of the macros: the decisions of the generators are modelled, not the tokens.
- Thin value wrappers, status and type tables, buffer constructors, generators and the serde accessors: each is settled by reading one branch.
- Windows, wasm, noop, tracing and `deferred_trace` variants, and debug-only assertions.
- Fairness: that a waiting thread, tokio or the engine is scheduled in the end; proved is that each can still go on (`TsfnOperations.NobodyIsStuck`, `ModuleRegister.EveryoneCanRegister`, `AsyncWork.CanComplete`, `AsyncCall.BothWaysSettle`).
- The bound of a threadsafe function's queue, blocking calls, priorities and the engine's own count of threads: whether a call is accepted is a parameter.
- Lock poisoning and panics outside the tokio task; where `cleanup_lines` would panic the model says so.
- Which memory a payload that meets a dead environment occupies: it is never unboxed, and its receiver stays pending.
- The objects of the concurrent models are values and not classes, since one method cannot stand for an interleaving; aliasing through `Arc` and `Rc` appears as the one shared field it leads to.
- ErrorRefs.Errors.Perform: promises the account only; what each operation makes of the owned errors is stated by the methods it calls.
- ErrorRefs.Errors.FromReader: the rejection it refers to is taken not to be collected while the error stands, though a count of zero does not keep it.
- ErrorRefs.Errors.ThrowInto: does not model the status and reason texts of an error, which are copied and not decided on.
- ErrorRefs.Errors.FromUnknown: cause chains are finite; on a cyclic chain the source does not return.
- FnArgs.GenTsFuncArgs: the printed type of an argument is its parameter; only the optional flag and the name are derived.
- TypeTemplate.EitherNeverNarrows: does not say which texts a reading joins as their union; brackets around function types are put on before the template is filled.
- ExportRegistration.EveryOrder: callbacks succeed, and the hooks that run after the two passes are not modelled.
- The user callbacks an abort signal runs before it cancels.
- BigIntWords.JsBigInt.GetWords: the engine fills the vector and reports the number of words it needs; other engines' truncated answers are not modelled.
- Functions marked `module_exports`, whose argument is the exports object, and the `strict` and `return_if_invalid` type checks put before a conversion.
- Object property lookups on JS primitives: read as absent.
