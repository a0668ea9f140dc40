/** The single-slot "start activity for result" bridge of the fake dApp's
    main activity, as a state machine on values.

    The bridge holds at most one pending completion callback. A start request
    installs its callback (refusing when one is already pending) and then
    launches the intent; a completion invokes the pending callback, while the
    slot is still occupied, and then empties the slot. The functions here are
    the specification that the class IntentSender in module IntentSenderModel
    is proved against, and the lemmas in module BridgeTraces build on them. */
module BridgeSpec {

  datatype Option<T> = None | Some(value: T)

  /** An Android Intent handed to the activity-result launcher; its contents
      belong to the framework, so it is an opaque value here. */
  datatype Intent = Intent(id: nat)

  /** A completion callback of type `() -> Unit`, identified by an opaque id. */
  datatype CallbackId = CallbackId(id: nat)

  /** The message of the IllegalStateException thrown by the single-flight check. */
  const PendingMessage: string := "Received an activity start request while another is pending"

  /** What can escape one of the bridge's entry points as an exception. */
  datatype Failure =
    | IllegalState(message: string)  // Kotlin `check` failing
    | CallbackFailure                 // an exception of the callback's own

  /** How an entry point returns: normally, or by throwing. */
  datatype Outcome = Normal | Raised(failure: Failure)

  /** What the arbitrary code of a callback does with the bridge while it runs:
      nothing, throw on its own, or call startActivityForResult re-entrantly
      (on the same thread, so the reentrant monitor lets it in) and either
      catch or let through the exception that call may throw. */
  datatype CallbackRun =
    | Returns
    | Throws
    | StartsAnother(intent: Intent, callback: CallbackId, catches: bool)

  /** The slot and three ghost logs: every callback installed, every intent
      launched and every callback invoked, oldest first. */
  datatype State = State(
    callback: Option<CallbackId>,
    installed: seq<CallbackId>,
    launched: seq<Intent>,
    fired: seq<CallbackId>)

  /** The state after an entry point and how the entry point returned. */
  datatype Step = Step(state: State, outcome: Outcome)

  /** The slot starts out empty and nothing has happened yet. */
  function Initial(): (s: State)
    ensures s.callback.None? && Inv(s)
  {
    State(None, [], [], [])
  }

  /** The bridge's invariant between entry points: one launch per installed
      callback, and the callbacks fired are exactly those installed, except
      the pending one when the slot is occupied. */
  ghost predicate Inv(s: State) {
    |s.launched| == |s.installed| &&
    match s.callback
    case None => s.fired == s.installed
    case Some(cb) => s.fired + [cb] == s.installed
  }

  /** Whether an exception escapes the callback when it runs with the slot
      occupied (a re-entrant start is then always refused). */
  predicate Raises(run: CallbackRun) {
    run.Throws? || (run.StartsAnother? && !run.catches)
  }

  /** The synchronized block of startActivityForResult: the single-flight
      check, then the installation of the callback. */
  function Install(s: State, cb: CallbackId): (r: Step)
    ensures r.outcome.Normal? <==> s.callback.None?
    ensures r.outcome.Raised? ==> r == Step(s, Raised(IllegalState(PendingMessage)))
    ensures r.outcome.Normal? ==> r.state == s.(callback := Some(cb), installed := s.installed + [cb])
  {
    if s.callback.Some? then Step(s, Raised(IllegalState(PendingMessage)))
    else Step(s.(callback := Some(cb), installed := s.installed + [cb]), Normal)
  }

  /** activityResultLauncher.launch(intent), reached only with the slot occupied. */
  function Launch(s: State, intent: Intent): (r: State)
    requires s.callback.Some?
    ensures r.callback == s.callback && r.installed == s.installed && r.fired == s.fired
    ensures r.launched == s.launched + [intent]
  {
    s.(launched := s.launched + [intent])
  }

  /** startActivityForResult(intent, cb). */
  function Start(s: State, intent: Intent, cb: CallbackId): (r: Step)
    // refused while pending: the pending callback stays, nothing is launched
    ensures s.callback.Some? ==> r == Step(s, Raised(IllegalState(PendingMessage)))
    // from Idle: exactly the supplied callback is pending and exactly one launch is added
    ensures s.callback.None? ==>
      r.outcome == Normal && r.state.callback == Some(cb) &&
      r.state.installed == s.installed + [cb] &&
      r.state.launched == s.launched + [intent] &&
      r.state.fired == s.fired
    // a launch is only recorded with the slot occupied
    ensures |r.state.launched| != |s.launched| ==> r.state.callback.Some?
    ensures Inv(s) ==> Inv(r.state)
  {
    var installing := Install(s, cb);
    if installing.outcome.Raised? then installing
    else Step(Launch(installing.state, intent), Normal)
  }

  /** `callback?.let { it() }` with a callback pending: the invocation is
      recorded, then the callback's own code runs while the slot still holds it. */
  function Invoke(s: State, run: CallbackRun): (r: Step)
    requires s.callback.Some?
    // the slot is occupied during the whole callback and no launch happens
    ensures r.state.callback == s.callback
    ensures r.state.installed == s.installed && r.state.launched == s.launched
    // the pending callback is invoked once
    ensures r.state.fired == s.fired + [s.callback.value]
    ensures r.outcome.Raised? <==> Raises(run)
    // a start from inside the callback is refused by the check
    ensures run.StartsAnother? && !run.catches ==> r.outcome == Raised(IllegalState(PendingMessage))
  {
    var invoked := s.(fired := s.fired + [s.callback.value]);
    match run
    case Returns => Step(invoked, Normal)
    case Throws => Step(invoked, Raised(CallbackFailure))
    case StartsAnother(intent, cb, catches) =>
      var nested := Start(invoked, intent, cb);
      if nested.outcome.Raised? && !catches then nested else Step(nested.state, Normal)
  }

  /** onActivityComplete(): invoke the pending callback, if any, then clear
      the slot; an exception escaping the callback skips the clearing. */
  function Complete(s: State, run: CallbackRun): (r: Step)
    // with no callback pending the call is a no-op, whatever the run would have done
    ensures s.callback.None? ==> r == Step(s, Normal)
    // with a callback pending it fires exactly once and nothing is launched
    ensures s.callback.Some? ==>
      r.state.fired == s.fired + [s.callback.value] &&
      r.state.installed == s.installed && r.state.launched == s.launched
    ensures s.callback.Some? && !Raises(run) ==> r == Step(r.state, Normal) && r.state.callback.None?
    ensures s.callback.Some? && Raises(run) ==> r.state.callback == s.callback
    // the exception that escapes: the callback's own, or the refusal of a re-entrant start
    ensures s.callback.Some? && Raises(run) ==>
      r.outcome == (if run.Throws? then Raised(CallbackFailure) else Raised(IllegalState(PendingMessage)))
    ensures Inv(s) && !Raises(run) ==> Inv(r.state)
  {
    if s.callback.None? then Step(s.(callback := None), Normal)
    else
      var invoking := Invoke(s, run);
      if invoking.outcome.Raised? then invoking
      else Step(invoking.state.(callback := None), Normal)
  }
}
