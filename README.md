# Single-flight activity-result bridge of the fake dApp

The fake dApp's `MainActivity` hands requests to an external wallet through an
object called `intentSender`. The view model calls
`startActivityForResult(intent, callback)`. That call refuses to start when a
callback is already pending (a Kotlin `check`, which throws
`IllegalStateException("Received an activity start request while another is
pending")`). Otherwise it installs the callback in a single nullable slot and
launches the intent through the activity-result launcher. When the wallet
returns, the launcher routes every result, whatever its code and data, to
`onActivityComplete()`. Under the same monitor, that method invokes the
pending callback, if there is one, and then clears the slot.

The project models this bridge in three modules:

- `BridgeSpec` (bridge_spec.dfy) is the bridge as a state machine on values.
  Its state is the slot plus three logs: the callbacks installed, the intents
  launched and the callbacks fired. `Install`, `Launch`, `Invoke`, `Start` and
  `Complete` follow the source line by line. `Inv` is the invariant that holds
  between calls.
- `BridgeTraces` (bridge_traces.dfy) covers arbitrary sequences of start
  requests and completion notifications. It holds the inductive lemmas:
  the invariant is kept, the k-th firing is the k-th installation, no callback
  fires twice, and a strictly sequential caller has each request resolved
  exactly once.
- `IntentSenderModel` (intent_sender.dfy) holds the classes `IntentSender` and
  `MainActivity`. Their fields are updated in place, and each entry point is
  proved to produce the state and outcome of the matching `BridgeSpec`
  function.

Intents and callbacks are opaque identifiers. A launch is an append to the
ghost log `launched`. A callback invocation is an append to the ghost log
`fired`. The callback's own code is arbitrary, so it becomes a parameter,
`CallbackRun`, that says what the code does with the bridge while it runs. It
can return, throw, or call `startActivityForResult` re-entrantly and then
either catch the resulting exception or let it through. A Kotlin exception
becomes an `Outcome` of `Raised(...)` and leaves the state exactly as the
Kotlin code leaves it.

The callback runs inside the `synchronized` block (MainActivity.kt:190),
before the slot is cleared (MainActivity.kt:191). So while the callback runs
the slot is still occupied, and a start made from inside the callback on the
same thread is refused (`Invoke`, `SequentialClient`). For the same reason, an
exception that escapes the callback skips the clearing. The slot then keeps the
callback, every start before the next completion is refused, and the next
completion fires the same
callback a second time (`RaisingCallbackStaysPending`). This is why the trace
lemmas are stated for traces in which no exception escapes a callback
(`WellBehaved`).

## Model

| member | source | states |
|---|---|---|
| `BridgeSpec.Initial` | android/fakedapp/src/main/java/com/solana/mobilewalletadapter/fakedapp/MainActivity.kt:175 | the slot starts out empty and the invariant holds from the first state |
| `BridgeSpec.Install` | android/fakedapp/src/main/java/com/solana/mobilewalletadapter/fakedapp/MainActivity.kt:181-184 | the check succeeds exactly when the slot is empty; on failure the state is unchanged and the failure is IllegalState with the "another is pending" message; on success the slot holds exactly the supplied callback, the installed log gains it, and the launch and fired logs are unchanged |
| `BridgeSpec.Start` | android/fakedapp/src/main/java/com/solana/mobilewalletadapter/fakedapp/MainActivity.kt:177-186 | while pending: refused with the "another is pending" error, pending callback unchanged, nothing launched; from Idle: the slot holds exactly the supplied callback and exactly one launch of the intent is appended; a launch is only recorded with the slot occupied; the invariant is preserved |
| `BridgeSpec.Launch` | android/fakedapp/src/main/java/com/solana/mobilewalletadapter/fakedapp/MainActivity.kt:185 | may only be applied with a callback installed; appends exactly the intent to the launch log and leaves the slot, the installed log and the fired log unchanged |
| `BridgeSpec.Invoke` | android/fakedapp/src/main/java/com/solana/mobilewalletadapter/fakedapp/MainActivity.kt:190 | the pending callback fires once; the slot stays occupied throughout the callback; nothing is launched; an exception escapes exactly when the run raises; a start from inside the callback is refused by the check at line 182 |
| `BridgeSpec.Complete` | android/fakedapp/src/main/java/com/solana/mobilewalletadapter/fakedapp/MainActivity.kt:188-193 | when Idle: a no-op, whatever the callback would have done; when Pending: the pending callback fires exactly once and nothing is launched; if no exception escapes the slot is left empty, otherwise it keeps the callback and the escaping exception is the callback's own or, for an uncaught re-entrant start, the "another is pending" IllegalState; the invariant is preserved when no exception escapes |
| `BridgeTraces.RunKeepsInv` | android/fakedapp/src/main/java/com/solana/mobilewalletadapter/fakedapp/MainActivity.kt:175-192 | along any sequence of starts and completions in which no callback raises, the invariant is kept: one launch per installation, and the fired log equals the installed log, minus the pending callback when there is one |
| `BridgeTraces.FiringFollowsInstallation` | android/fakedapp/src/main/java/com/solana/mobilewalletadapter/fakedapp/MainActivity.kt:175-192 | from a fresh bridge: the k-th callback fired is the k-th installed; successful starts minus callbacks fired is 1 when Pending (the pending one is the next installed) and 0 when Idle |
| `BridgeTraces.NoCallbackFiresTwice` | android/fakedapp/src/main/java/com/solana/mobilewalletadapter/fakedapp/MainActivity.kt:189-192 | when installed callbacks are pairwise distinct, the fired log has no repeats: no callback is invoked twice |
| `BridgeTraces.AlternatingResolvesEach` | android/fakedapp/src/main/java/com/solana/mobilewalletadapter/fakedapp/MainActivity.kt:181-192 | a caller that alternates start and completion from Idle has every start accepted, every intent launched once, every callback fired exactly once in order, and ends Idle |
| `BridgeTraces.RepeatedCompletionIsNoop` | android/fakedapp/src/main/java/com/solana/mobilewalletadapter/fakedapp/MainActivity.kt:190-191 | after a completion has resolved the pending callback, a second completion fires nothing and changes nothing |
| `BridgeTraces.StaleCompletionIsTransparent` | android/fakedapp/src/main/java/com/solana/mobilewalletadapter/fakedapp/MainActivity.kt:189-192 | a completion on an empty slot does not change the outcome of any later sequence of calls |
| `BridgeTraces.RaisingCallbackStaysPending` | android/fakedapp/src/main/java/com/solana/mobilewalletadapter/fakedapp/MainActivity.kt:182-191 | if an exception escapes the callback, the slot keeps it, a start before the next completion is refused, and the next completion fires the same callback again |
| `IntentSenderModel.IntentSender.constructor` | android/fakedapp/src/main/java/com/solana/mobilewalletadapter/fakedapp/MainActivity.kt:173-175 | a new sender has an empty slot and empty logs |
| `IntentSenderModel.IntentSender.Launch` | android/fakedapp/src/main/java/com/solana/mobilewalletadapter/fakedapp/MainActivity.kt:185 | may only be called with a callback installed; appends the intent to the launch log and changes nothing else |
| `IntentSenderModel.IntentSender.StartActivityForResult` | android/fakedapp/src/main/java/com/solana/mobilewalletadapter/fakedapp/MainActivity.kt:177-186 | the new state and outcome are those of `BridgeSpec.Start`; while pending it throws the "another is pending" error and leaves every field unchanged; from Idle the slot holds the callback and one launch is appended; keeps `Valid` |
| `IntentSenderModel.IntentSender.OnActivityComplete` | android/fakedapp/src/main/java/com/solana/mobilewalletadapter/fakedapp/MainActivity.kt:188-193 | the new state and outcome are those of `BridgeSpec.Complete`; a no-op when Idle; when Pending the callback fires once and then the slot is cleared, unless an exception escapes the callback (a re-entrant start made during the callback is the real call, refused because the slot is still occupied); keeps `Valid` when no exception escapes |
| `IntentSenderModel.MainActivity.constructor` | android/fakedapp/src/main/java/com/solana/mobilewalletadapter/fakedapp/MainActivity.kt:173-175 | the activity owns a fresh sender with an empty slot |
| `IntentSenderModel.MainActivity.OnActivityResult` | android/fakedapp/src/main/java/com/solana/mobilewalletadapter/fakedapp/MainActivity.kt:29-32 | every activity result, whatever its code and data, makes exactly the state change of `onActivityComplete`, and keeps `Valid` when no exception escapes the callback |

## Left out

- Concurrency: each `synchronized` block is one atomic step and the JVM monitor is not modelled. Interleavings between the release of the lock at line 184 and the launch at line 185 are not modelled either. Re-entry from inside the callback is modelled through `CallbackRun.StartsAnother`.
- Launch failures: an exception thrown by `activityResultLauncher.launch` (for example, no activity found for the intent) is not modelled. The launch always succeeds and appends to `launched`.
- The callback's own effects on the view model, and any payload of the activity result, belong to `MainViewModel`, which is not part of this model. A callback is an opaque identifier plus a `CallbackRun`.
- `onCreate` (lines 34-166) only wires the UI: state collection, button enabling, the spinner, labels, snackbars, and click listeners that forward to the view model. `onResume` (lines 168-171) calls into the view model. Neither has logic of its own to state.
- `registerForActivityResult` and the contents of an `Intent` belong to the Android framework. The launcher is a ghost log, and an intent is an opaque identifier.
- What happens after an exception escapes `onActivityComplete` on the main thread (normally the process is ended) is outside the bridge. The model stops at the state Kotlin leaves behind.
