# ThrottleLatestFrame, modelled in Dafny

R3's `ThrottleLatestFrame` operator forwards the first value of a window at
once. It then keeps only the most recent later value and forwards it when
the window closes, `frameCount` frames later. Frames are callbacks from a
frame provider, not wall-clock time.

This project models the per-subscription object `_ThrottleLatestFrame`:

- its four mutable fields, `lastValue`, `hasValue`, `currentFrame` and `running`;
- the value path `OnNextCore` and the frame callback `MoveNext`;
- the pass-through of errors and completion;
- the clamp of the configured frame count to at least 1.

It has three files:

- `notifications.dfy` (module `Notifications`): the notifications the
  downstream observer receives. These are `Next(value)`, `ErrorResume(error)`
  and `Completed(result)`, with R3's `Result` being success or failure.
- `throttle_spec.dfy` (module `ThrottleSpec`): the state machine as pure
  functions over a `State` value. `Run` gives the trace semantics over inputs:
  values, errors, completions, frames and disposal. The lemmas about windows
  are proved over traces. `Inv` is the invariant every reachable state keeps:
  - while a window is open, `0 <= currentFrame < frameCount <= 2^31-1`, so the
    32-bit `++currentFrame` never wraps;
  - the frame provider holds the item only while a window is open;
  - unless the subscription is disposed, it holds the item for the whole window;
  - outside a pending slot, `lastValue` is `default(T)`.
- `throttle_observer.dfy` (module `ThrottleLatestFrame`): the class
  `ThrottleLatestFrameObserver`, holding the fields. Counters are a 32-bit
  `int32` newtype. Its methods update the fields in place. Each entry point
  states its new fields directly, and also as the matching `ThrottleSpec` step.
  `Feed` makes the one call an input stands for, and `Drive` feeds a whole
  trace, ending in the state and output `Run` with `AsWritten` gives, so
  every lemma about `Run` with `AsWritten` holds of any sequence of calls;
  the `Corrected` lemmas describe the fixed closing step only. A few client scenarios run the
  object through literal traces.

Modelling choices:

- `default(T)` is a constructor parameter, `zero`, because Dafny has no
  generic default value.
- The downstream observer is the field `output`: the sequence of
  notifications it has received.
- The frame provider is modelled by two fields. `registered` says
  whether it holds the item, and the ghost `registrations` counts `Register` calls.
  `MoveNext` may be called only while `registered`. Returning `false`
  clears `registered`, since the provider then drops the item.
- In `Run`, a frame in which the provider does not hold the item does
  nothing to the subscription.
- Disposal is the boolean `disposed`, set by `Dispose()` from outside.

Line 81 of `ThrottleLatestFrame.cs` resets `lastValue` after a flush, which
shows the pending slot is meant to be emptied then; its flag `hasValue` is
never reset, so a later window with no further value does not close
silently. The model follows the code: the class uses
`ThrottleSpec.AsWritten`. The corrected step, `ThrottleSpec.Corrected`, is
there only for the finding below.

## Model

| member | source | states |
|---|---|---|
| `ThrottleSpec.NormalizeFrame` | src/R3/Operators/ThrottleLatestFrame.cs:20 | the frame count used is at least 1 and at least the configured one, and equals either 1 or the configured count |
| `ThrottleSpec.Initial` | src/R3/Operators/ThrottleLatestFrame.cs:20-39 | a fresh subscription keeps the invariant, has no window open, counter 0, nothing pending, is not registered nor disposed, and its frame count is the normalised configured one |
| `ThrottleSpec.OnNextCore` | src/R3/Operators/ThrottleLatestFrame.cs:41-58 | the value path keeps the invariant |
| `ThrottleSpec.OnErrorResumeCore` | src/R3/Operators/ThrottleLatestFrame.cs:60-63 | an error is forwarded as exactly one `ErrorResume` and the state is unchanged |
| `ThrottleSpec.OnCompletedCore` | src/R3/Operators/ThrottleLatestFrame.cs:65-68 | completion is forwarded as exactly one `Completed`, and the state, including a pending value, is unchanged |
| `ThrottleSpec.MoveNext` | src/R3/Operators/ThrottleLatestFrame.cs:70-89 | the frame callback keeps the invariant, and the provider still holds the item afterwards exactly when the callback returned true |
| `ThrottleSpec.Dispose` | src/R3/Operators/ThrottleLatestFrame.cs:72 | disposal keeps the invariant and marks the subscription disposed |
| `ThrottleSpec.Apply` | src/R3/Operators/ThrottleLatestFrame.cs:41-89 | any single input, with frames delivered only while registered, keeps the invariant |
| `ThrottleSpec.Run` | src/R3/Operators/ThrottleLatestFrame.cs:41-89 | every trace of inputs keeps the invariant: no 32-bit wrap, registration exactly while a window is open unless disposed |
| `ThrottleSpec.WindowAbsorbs` | src/R3/Operators/ThrottleLatestFrame.cs:52-63 | latest wins: in an open window, values, errors and fewer frames than remain emit no value, only the errors in order; the counter advances by the number of frames; the pending slot holds the last value that arrived |
| `ThrottleSpec.WindowCloses` | src/R3/Operators/ThrottleLatestFrame.cs:76-84 | after values and errors, the frame that brings the counter to frameCount emits the latest pending value if and only if one is pending. It resets lastValue to default, closes and unregisters; hasValue survives as written. Every other field, frameCount, default(T) and the disposed flag included, is as before, so the next window can start from this state |
| `ThrottleSpec.OpenedWindowStaysOpen` | src/R3/Operators/ThrottleLatestFrame.cs:45-56 | a window opened by a value emits that value at once; whatever values and errors follow, it stays open and registered through every frame before the frameCount-th, having emitted only the errors since |
| `ThrottleSpec.OpenedWindowClosesOnFrameCount` | src/R3/Operators/ThrottleLatestFrame.cs:45-84 | a window opened by a value closes on exactly the frameCount-th frame after it, whatever values and errors arrive. Output is the value, the errors in order, then the latest later value, or a stale default, when anything is pending. The window ends closed, unregistered, with lastValue reset and every other field as before the window |
| `ThrottleSpec.HasValueNeverCleared` | src/R3/Operators/ThrottleLatestFrame.cs:54 | as written, once hasValue is set it stays set along every later trace |
| `ThrottleSpec.StaleDefaultAfterFlush` | src/R3/Operators/ThrottleLatestFrame.cs:78-82 | as written, after a flushing close, a window that receives no further value emits its value and then default(T) |
| `ThrottleSpec.TwoWindowsStaleDefault` | src/R3/Operators/ThrottleLatestFrame.cs:45-84 | as written, from a fresh subscription with any frame count, a window with values a and b followed by a window with only c emits a, b, c and then default(T) |
| `ThrottleSpec.CorrectedKeepsNoPending` | src/R3/Operators/ThrottleLatestFrame.cs:78-83 | with hasValue cleared on close, nothing is pending between windows along every trace |
| `ThrottleSpec.CorrectedSilentClose` | src/R3/Operators/ThrottleLatestFrame.cs:78-83 | with hasValue cleared on close, in every reachable state a window that receives no further value emits only its first value |
| `ThrottleSpec.DisposedStaysSilent` | src/R3/Operators/ThrottleLatestFrame.cs:72 | once disposed, inputs other than values emit no value and leave every field of the window unchanged; the frame provider can only drop the item |
| `ThrottleSpec.ErrorInsideWindow` | src/R3/Operators/ThrottleLatestFrame.cs:60-63 | with frameCount 2, a value, an error and two frames emit the value and the error, and the second frame closes the window and unregisters |
| `ThrottleSpec.ExampleTrace` | src/R3/Operators/ThrottleLatestFrame.cs:41-89 | with frameCount 3, the trace A, frame, B, C, frame, frame emits exactly A then C |
| `ThrottleLatestFrame.ThrottleLatestFrameObserver.constructor` | src/R3/Operators/ThrottleLatestFrame.cs:20-39 | the frame count is normalised; no window is open, nothing is pending or emitted, and nothing is registered |
| `ThrottleLatestFrame.ThrottleLatestFrameObserver.Register` | src/R3/Operators/ThrottleLatestFrame.cs:49 | registering requires that the provider does not hold the item yet; it counts one registration |
| `ThrottleLatestFrame.ThrottleLatestFrameObserver.OnNextCore` | src/R3/Operators/ThrottleLatestFrame.cs:41-58 | with no window open it opens one (counter 0, one registration while unregistered), emits the value and leaves the pending slot alone. With a window open it overwrites the pending value, emits nothing, keeps the counter and the registration |
| `ThrottleLatestFrame.ThrottleLatestFrameObserver.OnErrorResumeCore` | src/R3/Operators/ThrottleLatestFrame.cs:60-63 | appends exactly `ErrorResume(error)` and changes no field |
| `ThrottleLatestFrame.ThrottleLatestFrameObserver.OnCompletedCore` | src/R3/Operators/ThrottleLatestFrame.cs:65-68 | appends exactly `Completed(result)`, changes no field and flushes no pending value |
| `ThrottleLatestFrame.ThrottleLatestFrameObserver.MoveNext` | src/R3/Operators/ThrottleLatestFrame.cs:70-89 | disposed: returns false and changes nothing. A non-closing frame: increments the counter, emits nothing, returns true. The frameCount-th frame: emits lastValue if and only if hasValue, resets lastValue, keeps hasValue, closes, returns false and unregisters |
| `ThrottleLatestFrame.ThrottleLatestFrameObserver.Dispose` | src/R3/Operators/ThrottleLatestFrame.cs:72 | sets the disposed flag that MoveNext reads and changes nothing else |
| `ThrottleLatestFrame.Feed` | src/R3/Operators/ThrottleLatestFrame.cs:41-89 | one input makes the matching call (a frame reaches MoveNext only while registered) and leaves the object in the state and output of one `ThrottleSpec.Apply` step |
| `ThrottleLatestFrame.Drive` | src/R3/Operators/ThrottleLatestFrame.cs:41-89 | feeding a trace of inputs one call at a time leaves the object in the state, and with the output, that `ThrottleSpec.Run` gives |
| `ThrottleLatestFrame.ExampleScenario` | src/R3/Operators/ThrottleLatestFrame.cs:41-89 | on the object, frameCount 3 and A, frame, B, C, frame, frame emit A and C; the frames return true, true, false |
| `ThrottleLatestFrame.ZeroFrameCountScenario` | src/R3/Operators/ThrottleLatestFrame.cs:20 | a configured frame count of 0 closes the window on the very next frame |
| `ThrottleLatestFrame.StaleDefaultScenario` | src/R3/Operators/ThrottleLatestFrame.cs:78-82 | with frameCount 1, the calls a, b, frame, c, frame emit a, b, c and then default(T) |
| `ThrottleLatestFrame.DisposalScenario` | src/R3/Operators/ThrottleLatestFrame.cs:60-72 | after disposal the next frame returns false and the pending value is never emitted; calling the Core methods for an error and completion after disposal still forwards them (the base class's gate is not modelled) |

## Findings

| source | as written | input that shows it | evidently intended | confidence | as-written member | corrected member |
|---|---|---|---|---|---|---|
| src/R3/Operators/ThrottleLatestFrame.cs:78-82 | the closing frame resets `lastValue` to `default` but leaves `hasValue` true forever | frameCount 1: values a, b, a frame, value c, a frame; downstream receives a, b, c and then `default(T)` (null for a reference type) | set `hasValue = false` on flush, so a window with no later value closes silently | high; not executed | `ThrottleSpec.StaleDefaultAfterFlush` | `ThrottleSpec.CorrectedSilentClose` |

## Left out

- The `lock (gate)` and thread interleavings. Each call to `OnNextCore` or
  `MoveNext` is one atomic step; the lock adds no logic beyond that.
- The race between disposal and emission is not modelled. Disposal is a
  field read at the start of the frame callback.
- Re-entrant calls from the downstream observer while the lock is held.
  Emission appends to `output`.
- A downstream observer that throws is not modelled: emission always
  succeeds. If `observer.OnNext` threw at line 80, lines 81-84 would be
  skipped and `running` would stay true; the model does not capture that.
- The frame provider's internals (`FrameProvider`, how frames are
  generated). Registration is a flag plus a ghost counter.
- The `long` frame index argument of `MoveNext`, which the code ignores.
- The base class `Observer<T>` is not part of this model. That covers
  `IsDisposed`, the subscribe/dispose plumbing, any dropping of calls after
  disposal, and any disposal after completion. The core methods are
  modelled as written: here `OnNextCore` still emits after disposal.
- The extension-method overloads, `ObservableSystem.DefaultFrameProvider`
  and the wiring in `SubscribeCore` (lines 3-21). Only the frame-count
  normalisation is modelled, in the constructor.
- `NormalizeFrame` is defined elsewhere in R3 and is not modelled from its
  code; it is taken to be the clamp of values `<= 0` to 1.
- The class runs the code as written (`hasValue` is never cleared). The
  corrected closing step exists only in the `ThrottleSpec` state machine.
- ThrottleSpec.WindowAbsorbs: covers windows of values, errors and frames only; a completion or disposal inside the window is not covered, as `Observer<T>` (not part of this model) disposes the subscription after completion and disposal is handled by `DisposedStaysSilent`.
- ThrottleSpec.WindowCloses: the same scope as `WindowAbsorbs`, for the same reason.
- ThrottleSpec.OpenedWindowStaysOpen: the same scope as `WindowAbsorbs`, for the same reason.
- ThrottleSpec.OpenedWindowClosesOnFrameCount: the same scope as `WindowAbsorbs`, for the same reason.
