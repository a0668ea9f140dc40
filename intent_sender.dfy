/** The `intentSender` object of MainActivity and the activity-result
    launcher that feeds it, as classes whose fields the entry points update
    in place. Each `synchronized` block is one atomic step; every entry point
    is proved against the matching function of module BridgeSpec. */
module IntentSenderModel {
  import opened BridgeSpec

  /** The payload the framework delivers with an activity result; the
      bridge never looks at it. */
  datatype ActivityResult = ActivityResult(resultCode: int, data: Option<Intent>)

  class IntentSender {
    /** The pending completion callback; None is Kotlin's null. */
    var callback: Option<CallbackId>
    /** Every callback installed, oldest first. */
    ghost var installed: seq<CallbackId>
    /** Every intent handed to the activity-result launcher, oldest first. */
    ghost var launched: seq<Intent>
    /** Every callback invocation, oldest first. */
    ghost var fired: seq<CallbackId>

    ghost function Snapshot(): State
      reads this
    {
      State(callback, installed, launched, fired)
    }

    /** The invariant between entry points (see BridgeSpec.Inv). */
    ghost predicate Valid()
      reads this
    {
      Inv(Snapshot())
    }

    constructor ()
      ensures Snapshot() == Initial() && Valid()
    {
      callback := None;
      installed, launched, fired := [], [], [];
    }

    /** activityResultLauncher.launch(intent): hands the intent to the framework. */
    method Launch(intent: Intent)
      requires callback.Some?
      modifies this
      ensures Snapshot() == old(Snapshot()).(launched := old(launched) + [intent])
    {
      launched := launched + [intent];
    }

    method StartActivityForResult(intent: Intent, onActivityCompleteCallback: CallbackId)
      returns (outcome: Outcome)
      modifies this
      ensures Step(Snapshot(), outcome) == Start(old(Snapshot()), intent, onActivityCompleteCallback)
      ensures old(callback).Some? ==>
        outcome == Raised(IllegalState(PendingMessage)) && unchanged(this)
      ensures old(callback).None? ==>
        outcome == Normal && callback == Some(onActivityCompleteCallback) &&
        launched == old(launched) + [intent] && fired == old(fired)
      ensures old(Valid()) ==> Valid()
    {
      // One atomic step: the monitor is held for the check and the
      // installation, and released before the launch.
      if callback.Some? {
        return Raised(IllegalState(PendingMessage));
      }
      callback := Some(onActivityCompleteCallback);
      installed := installed + [onActivityCompleteCallback];
      Launch(intent);
      outcome := Normal;
    }

    method OnActivityComplete(run: CallbackRun) returns (outcome: Outcome)
      modifies this
      ensures Step(Snapshot(), outcome) == Complete(old(Snapshot()), run)
      ensures old(callback).None? ==> outcome == Normal && unchanged(this)
      ensures old(callback).Some? ==>
        fired == old(fired) + [old(callback).value] && launched == old(launched)
      ensures old(callback).Some? && !Raises(run) ==> outcome == Normal && callback.None?
      ensures old(callback).Some? && Raises(run) ==> outcome.Raised? && callback == old(callback)
      ensures old(Valid()) && !Raises(run) ==> Valid()
    {
      // One atomic step: the monitor is held while the callback runs and
      // until the slot is cleared.
      if callback.Some? {
        // it(): the callback runs while the slot still holds it
        fired := fired + [callback.value];
        match run
        case Returns =>
        case Throws =>
          return Raised(CallbackFailure);
        case StartsAnother(intent, cb, catches) =>
          var nested := StartActivityForResult(intent, cb);
          if nested.Raised? && !catches {
            return nested;
          }
      }
      callback := None;
      outcome := Normal;
    }
  }

  class MainActivity {
    const intentSender: IntentSender

    constructor ()
      ensures fresh(intentSender) && intentSender.Snapshot() == Initial()
    {
      intentSender := new IntentSender();
    }

    /** The callback registered with registerForActivityResult: every result,
        whatever its code and data, is routed to onActivityComplete. */
    method OnActivityResult(result: ActivityResult, run: CallbackRun) returns (outcome: Outcome)
      modifies intentSender
      ensures Step(intentSender.Snapshot(), outcome) == Complete(old(intentSender.Snapshot()), run)
      ensures old(intentSender.Valid()) && !Raises(run) ==> intentSender.Valid()
    {
      outcome := intentSender.OnActivityComplete(run);
    }
  }

  /** A client of the bridge that exhibits, through the method contracts
      alone: an overlapping start is refused while the pending callback and
      the launch log stay as they were; a completion fires the pending
      callback once and empties the slot; a repeated completion fires
      nothing; and a start made from inside a callback that does not catch
      is refused, its exception escapes and the slot keeps the callback. */
  method SequentialClient(a: Intent, b: Intent, first: CallbackId, second: CallbackId)
  {
    var activity := new MainActivity();
    var sender := activity.intentSender;
    var o := sender.StartActivityForResult(a, first);
    assert o == Normal && sender.callback == Some(first);
    o := sender.StartActivityForResult(b, second);
    assert o == Raised(IllegalState(PendingMessage));
    assert sender.callback == Some(first) && sender.launched == [a];
    o := activity.OnActivityResult(ActivityResult(-1, None), Returns);
    assert sender.fired == [first] && sender.callback == None;
    o := activity.OnActivityResult(ActivityResult(0, None), Returns);
    assert o == Normal && sender.fired == [first];
    o := sender.StartActivityForResult(b, second);
    assert o == Normal && sender.launched == [a, b];
    o := activity.OnActivityResult(ActivityResult(-1, Some(b)), StartsAnother(a, first, false));
    assert o == Raised(IllegalState(PendingMessage)) && sender.callback == Some(second);
    assert sender.fired == [first, second] && sender.launched == [a, b];
  }
}
