/** The subscription object of R3's ThrottleLatestFrame operator: an observer
    of the upstream source that is also a frame-runner work item. Its fields
    are updated in place by the value path (OnNextCore) and by the frame
    callback (MoveNext); each call is one atomic step, as the lock on `gate`
    makes it. Every entry point is one step of the state machine of
    ThrottleSpec as written, and Drive, which makes a sequence of calls, is
    a run of it, so every lemma about Run with AsWritten holds of the object;
    the Corrected lemmas describe the fixed closing step only. */
module ThrottleLatestFrame {
  import opened Notifications
  import ThrottleSpec

  /** C#'s `int`. */
  newtype int32 = x: int | -0x8000_0000 <= x < 0x8000_0000

  class ThrottleLatestFrameObserver<T> {
    /** The frame count, normalised when the subscription is made. */
    const frameCount: int32
    /** default(T), which lastValue is reset to. */
    const zero: T

    var lastValue: T
    var hasValue: bool
    var currentFrame: int32
    var running: bool

    /** IsDisposed of the observer. */
    var disposed: bool
    /** The notifications the downstream observer has received, in order. */
    var output: seq<Event<T>>

    /** Whether the frame provider holds this item, and (ghost) how many
        times it was registered. */
    var registered: bool
    ghost var registrations: nat

    /** The fields as a state of the state machine. */
    ghost function Abstract(): ThrottleSpec.State<T>
      reads this
    {
      ThrottleSpec.State(frameCount as int, zero, lastValue, hasValue,
                         currentFrame as int, running, registered, disposed)
    }

    ghost predicate Valid()
      reads this
    {
      ThrottleSpec.Inv(Abstract())
    }

    /** SubscribeCore with the constructor it calls: the configured frame
        count is clamped to at least 1; no window is open. */
    constructor (frameCount: int32, zero: T)
      ensures Valid()
      ensures Abstract() == ThrottleSpec.Initial(frameCount as int, zero)
      ensures this.frameCount as int == ThrottleSpec.NormalizeFrame(frameCount as int)
      ensures !running && !hasValue && lastValue == zero && currentFrame == 0
      ensures !disposed && !registered && registrations == 0 && output == []
    {
      this.frameCount := ThrottleSpec.NormalizeFrame(frameCount as int) as int32;
      this.zero := zero;
      lastValue := zero;
      hasValue := false;
      currentFrame := 0;
      running := false;
      disposed := false;
      output := [];
      registered := false;
      registrations := 0;
    }

    /** frameProvider.Register(this): the provider must not hold the item
        already. */
    method Register()
      requires !registered
      modifies this`registered, this`registrations
      ensures registered && registrations == old(registrations) + 1
    {
      registered := true;
      registrations := registrations + 1;
    }

    /** A value from upstream. With no window open it opens one: the counter
        restarts at 0, the item registers exactly once (it was not
        registered) and the value goes downstream at once; the pending slot is
        untouched. With a window open it only records the value as pending,
        overwriting any earlier one. */
    method OnNextCore(value: T)
      requires Valid()
      modifies this
      ensures Valid()
      ensures var r := ThrottleSpec.OnNextCore(old(Abstract()), value);
              Abstract() == r.state && output == old(output) + r.emitted
      ensures !old(running) ==>
                && running && currentFrame == 0
                && !old(registered) && registered && registrations == old(registrations) + 1
                && output == old(output) + [Next(value)]
                && hasValue == old(hasValue) && lastValue == old(lastValue)
      ensures old(running) ==>
                && running && currentFrame == old(currentFrame)
                && hasValue && lastValue == value
                && registered == old(registered) && registrations == old(registrations)
                && output == old(output)
      ensures disposed == old(disposed)
    {
      if !running {
        running := true;
        currentFrame := 0;
        Register();
        output := output + [Next(value)];
      } else {
        hasValue := true;
        lastValue := value;
      }
    }

    /** An error from upstream goes downstream unchanged; no field changes. */
    method OnErrorResumeCore(error: Exception)
      requires Valid()
      modifies this`output
      ensures Valid()
      ensures output == old(output) + [ErrorResume(error)]
      ensures Abstract() == ThrottleSpec.OnErrorResumeCore(old(Abstract()), error).state
    {
      output := output + [ErrorResume(error)];
    }

    /** Completion from upstream goes downstream at once; a pending value is
        not flushed and no field changes. */
    method OnCompletedCore(result: Result)
      requires Valid()
      modifies this`output
      ensures Valid()
      ensures output == old(output) + [Completed(result)]
      ensures Abstract() == ThrottleSpec.OnCompletedCore(old(Abstract()), result).state
    {
      output := output + [Completed(result)];
    }

    /** The frame callback, called by the frame provider while it holds the
        item. When disposed it returns false and changes nothing. Otherwise
        it counts the frame: before the frameCount-th it returns true and
        emits nothing; on the frameCount-th it emits the pending value if
        and only if hasValue, resets lastValue to default(T) (hasValue stays
        as it was), closes the window and returns false. Returning false
        unregisters the item. */
    method MoveNext() returns (cont: bool)
      requires Valid() && registered
      modifies this
      ensures Valid()
      ensures var t := ThrottleSpec.MoveNext(old(Abstract()), ThrottleSpec.AsWritten);
              Abstract() == t.state && output == old(output) + t.emitted && cont == t.cont
      ensures registered == cont && registrations == old(registrations)
      ensures old(disposed) ==>
                && !cont && output == old(output)
                && lastValue == old(lastValue) && hasValue == old(hasValue)
                && currentFrame == old(currentFrame) && running == old(running)
      ensures !old(disposed) && old(currentFrame) as int + 1 < frameCount as int ==>
                && cont && currentFrame as int == old(currentFrame) as int + 1
                && running && output == old(output)
                && lastValue == old(lastValue) && hasValue == old(hasValue)
      ensures !old(disposed) && old(currentFrame) as int + 1 == frameCount as int ==>
                && !cont && !running && currentFrame == frameCount
                && output == old(output) + (if old(hasValue) then [Next(old(lastValue))] else [])
                && lastValue == (if old(hasValue) then zero else old(lastValue))
                && hasValue == old(hasValue)
      ensures disposed == old(disposed)
    {
      if disposed {
        registered := false;
        return false;
      }
      currentFrame := currentFrame + 1;
      if currentFrame == frameCount {
        if hasValue {
          output := output + [Next(lastValue)];
          lastValue := zero;
        }
        running := false;
        registered := false;
        return false;
      }
      return true;
    }

    /** Disposal of the subscription from outside; the frame provider drops
        the item at its next frame, when MoveNext returns false. */
    method Dispose()
      requires Valid()
      modifies this`disposed
      ensures Valid() && disposed
      ensures Abstract() == ThrottleSpec.Dispose(old(Abstract()))
    {
      disposed := true;
    }
  }

  /** One input to the object: the call it stands for, or nothing for a
      frame in which the frame provider does not hold the item. */
  method Feed<T>(w: ThrottleLatestFrameObserver<T>, input: ThrottleSpec.Input<T>)
    requires w.Valid()
    modifies w
    ensures w.Valid()
    ensures var r := ThrottleSpec.Apply(old(w.Abstract()), input, ThrottleSpec.AsWritten);
            w.Abstract() == r.state && w.output == old(w.output) + r.emitted
  {
    match input {
      case PushValue(v) => w.OnNextCore(v);
      case PushError(e) => w.OnErrorResumeCore(e);
      case PushCompleted(res) => w.OnCompletedCore(res);
      case FrameTick =>
        if w.registered {
          var _ := w.MoveNext();
        }
      case DisposeSubscription => w.Dispose();
    }
  }

  /** Feeds a trace of inputs to the object, one call per input. The object
      ends up in the state, and has emitted what, ThrottleSpec.Run with
      AsWritten says, so every lemma about Run with AsWritten holds of any
      sequence of calls; the Corrected lemmas do not describe the object. */
  method Drive<T>(w: ThrottleLatestFrameObserver<T>, inputs: seq<ThrottleSpec.Input<T>>)
    requires w.Valid()
    modifies w
    ensures w.Valid()
    ensures var r := ThrottleSpec.Run(old(w.Abstract()), inputs, ThrottleSpec.AsWritten);
            w.Abstract() == r.state && w.output == old(w.output) + r.emitted
  {
    ghost var start := w.Abstract();
    var i := 0;
    while i < |inputs|
      invariant 0 <= i <= |inputs|
      invariant w.Valid()
      invariant var r := ThrottleSpec.Run(start, inputs[..i], ThrottleSpec.AsWritten);
                w.Abstract() == r.state && w.output == old(w.output) + r.emitted
    {
      Feed(w, inputs[i]);
      ThrottleSpec.RunSnoc(start, inputs, i, ThrottleSpec.AsWritten);
      i := i + 1;
    }
    assert inputs[..i] == inputs;
  }

  /** The literal trace with frameCount 3: A, a frame, B, C, a frame and a
      frame. A goes downstream at once, C when the third frame closes the
      window; B is never seen. */
  method ExampleScenario() returns (emitted: seq<Event<char>>, conts: seq<bool>)
    ensures emitted == [Next('A'), Next('C')]
    ensures conts == [true, true, false]
  {
    var w := new ThrottleLatestFrameObserver<char>(3, '\0');
    w.OnNextCore('A');
    var c1 := w.MoveNext();
    w.OnNextCore('B');
    w.OnNextCore('C');
    var c2 := w.MoveNext();
    var c3 := w.MoveNext();
    emitted, conts := w.output, [c1, c2, c3];
  }

  /** A configured frame count of 0 is treated as 1: the window closes on
      the very next frame, flushing the value that arrived meanwhile. */
  method ZeroFrameCountScenario() returns (emitted: seq<Event<char>>, cont: bool)
    ensures emitted == [Next('x'), Next('y')]
    ensures !cont
  {
    var w := new ThrottleLatestFrameObserver<char>(0, '\0');
    w.OnNextCore('x');
    w.OnNextCore('y');
    cont := w.MoveNext();
    emitted := w.output;
  }

  /** Because the closing frame never clears hasValue, a second window that
      receives no value after its first one still emits default(T) when it
      closes. */
  method StaleDefaultScenario() returns (emitted: seq<Event<char>>)
    ensures emitted == [Next('a'), Next('b'), Next('c'), Next('\0')]
  {
    var w := new ThrottleLatestFrameObserver<char>(1, '\0');
    w.OnNextCore('a');
    w.OnNextCore('b');
    var c1 := w.MoveNext();
    w.OnNextCore('c');
    var c2 := w.MoveNext();
    emitted := w.output;
  }

  /** Disposal cuts the window off: the next frame returns false and the
      pending value is never emitted. Calling the Core methods for an error
      and completion after disposal still forwards them; the base class's
      gate on a disposed observer is not part of this model. */
  method DisposalScenario(error: Exception) returns (emitted: seq<Event<char>>, cont: bool)
    ensures emitted == [Next('a'), ErrorResume(error), Completed(Success)]
    ensures !cont
  {
    var w := new ThrottleLatestFrameObserver<char>(2, '\0');
    w.OnNextCore('a');
    w.OnNextCore('b');
    w.Dispose();
    w.OnErrorResumeCore(error);
    cont := w.MoveNext();
    w.OnCompletedCore(Success);
    emitted := w.output;
  }
}
