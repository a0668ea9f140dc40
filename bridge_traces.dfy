/** Sequences of calls into the bridge: start requests from the view model
    and completion notifications from the activity-result launcher, applied
    one atomic step at a time from a given state. */
module BridgeTraces {
  import opened BridgeSpec

  /** One call into the bridge. */
  datatype Event =
    | StartRequest(intent: Intent, callback: CallbackId)
    | Completion(run: CallbackRun)

  /** One request of a strictly sequential caller: start, then wait for the completion. */
  datatype Request = Request(intent: Intent, callback: CallbackId, run: CallbackRun)

  function Apply(s: State, e: Event): Step {
    match e
    case StartRequest(intent, cb) => Start(s, intent, cb)
    case Completion(run) => Complete(s, run)
  }

  /** The state after the events, oldest first. */
  function Run(s: State, events: seq<Event>): State
    decreases |events|
  {
    if events == [] then s else Run(Apply(s, events[0]).state, events[1..])
  }

  /** No callback lets an exception escape while it runs. */
  predicate WellBehaved(events: seq<Event>) {
    forall i :: 0 <= i < |events| ==> (events[i].Completion? ==> !Raises(events[i].run))
  }

  predicate Distinct<T(==)>(xs: seq<T>) {
    forall i, j :: 0 <= i < j < |xs| ==> xs[i] != xs[j]
  }

  /** The events of a caller that starts each request and waits for its completion. */
  function Alternate(requests: seq<Request>): seq<Event> {
    if requests == [] then []
    else [StartRequest(requests[0].intent, requests[0].callback), Completion(requests[0].run)]
         + Alternate(requests[1..])
  }

  function IntentsOf(requests: seq<Request>): seq<Intent> {
    if requests == [] then [] else [requests[0].intent] + IntentsOf(requests[1..])
  }

  function CallbacksOf(requests: seq<Request>): seq<CallbackId> {
    if requests == [] then [] else [requests[0].callback] + CallbacksOf(requests[1..])
  }

  /** Every call of a well-behaved trace keeps the invariant. */
  lemma {:induction false} RunKeepsInv(s: State, events: seq<Event>)
    requires Inv(s) && WellBehaved(events)
    ensures Inv(Run(s, events))
    decreases |events|
  {
    if events != [] {
      assert !events[0].Completion? || !Raises(events[0].run) by {
        assert 0 < |events|;
      }
      assert WellBehaved(events[1..]) by {
        forall i | 0 <= i < |events[1..]|
          ensures events[1..][i].Completion? ==> !Raises(events[1..][i].run)
        {
          assert events[1..][i] == events[i + 1];
        }
      }
      RunKeepsInv(Apply(s, events[0]).state, events[1..]);
    }
  }

  /** From a fresh bridge, along any well-behaved trace: the k-th callback
      fired is the k-th callback installed, every successful start launched
      exactly once, and successful starts minus callbacks fired is 1 when a
      callback is pending and 0 when the slot is empty. */
  lemma {:induction false} FiringFollowsInstallation(events: seq<Event>)
    requires WellBehaved(events)
    ensures var s := Run(Initial(), events);
      |s.launched| == |s.installed| &&
      |s.fired| <= |s.installed| &&
      (forall k :: 0 <= k < |s.fired| ==> s.fired[k] == s.installed[k]) &&
      (s.callback.Some? ==> |s.launched| - |s.fired| == 1 && s.installed[|s.fired|] == s.callback.value) &&
      (s.callback.None? ==> |s.launched| - |s.fired| == 0)
  {
    RunKeepsInv(Initial(), events);
    var s := Run(Initial(), events);
    if s.callback.Some? {
      assert s.installed == s.fired + [s.callback.value];
    }
  }

  /** When every start supplies a callback not supplied before, no callback
      fires twice over a well-behaved trace. */
  lemma {:induction false} NoCallbackFiresTwice(events: seq<Event>)
    requires WellBehaved(events)
    requires Distinct(Run(Initial(), events).installed)
    ensures Distinct(Run(Initial(), events).fired)
  {
    FiringFollowsInstallation(events);
  }

  /** A caller that waits for each completion before its next start, with
      callbacks that return: every start succeeds, every callback fires once
      and in order, and the slot ends up empty. */
  lemma {:induction false} AlternatingResolvesEach(s: State, requests: seq<Request>)
    requires s.callback.None?
    requires forall k :: 0 <= k < |requests| ==> !Raises(requests[k].run)
    ensures Run(s, Alternate(requests)) == State(
      None,
      s.installed + CallbacksOf(requests),
      s.launched + IntentsOf(requests),
      s.fired + CallbacksOf(requests))
    decreases |requests|
  {
    if requests != [] {
      var r := requests[0];
      assert !Raises(r.run) by { assert 0 < |requests|; }
      var completed := Complete(Start(s, r.intent, r.callback).state, r.run).state;
      assert completed == State(None, s.installed + [r.callback], s.launched + [r.intent], s.fired + [r.callback]);
      RunPair(s, StartRequest(r.intent, r.callback), Completion(r.run), Alternate(requests[1..]));
      AlternatingResolvesEach(completed, requests[1..]);
      assert CallbacksOf(requests) == [r.callback] + CallbacksOf(requests[1..]);
      assert IntentsOf(requests) == [r.intent] + IntentsOf(requests[1..]);
    }
  }

  /** Two calls in a row, then the rest. */
  lemma RunPair(s: State, first: Event, second: Event, rest: seq<Event>)
    ensures Run(s, [first, second] + rest) == Run(Apply(Apply(s, first).state, second).state, rest)
  {
  }

  /** After a completion that resolved the pending callback, a repeated
      completion notification fires nothing and changes nothing. */
  lemma RepeatedCompletionIsNoop(s: State, run: CallbackRun, replay: CallbackRun)
    requires s.callback.Some? && !Raises(run)
    ensures var resolved := Complete(s, run).state;
      resolved.fired == s.fired + [s.callback.value] &&
      Complete(resolved, replay) == Step(resolved, Normal)
  {
  }

  /** A stale completion on an empty slot does not affect what any later calls do. */
  lemma StaleCompletionIsTransparent(s: State, run: CallbackRun, events: seq<Event>)
    requires s.callback.None?
    ensures Run(s, [Completion(run)] + events) == Run(s, events)
  {
  }

  /** Kotlin semantics of an exception escaping the callback: line 191 is
      skipped, so the slot keeps the callback, every start before the next
      completion is refused, and the next completion notification fires the same callback again. */
  lemma RaisingCallbackStaysPending(s: State, run: CallbackRun, intent: Intent, cb: CallbackId, replay: CallbackRun)
    requires s.callback.Some? && Raises(run)
    ensures var stuck := Complete(s, run).state;
      stuck.callback == s.callback &&
      Start(stuck, intent, cb) == Step(stuck, Raised(IllegalState(PendingMessage))) &&
      Complete(stuck, replay).state.fired == s.fired + [s.callback.value, s.callback.value]
  {
  }
}
