/**
 * The render-thread handler of the compositor-driven player: start, stop and
 * instance-replacement messages, the animation-frame callback, and the
 * elapsed-time clock that each render advances before it asks the current
 * instance for the frame at that time.
 *
 * The composition clock is the parameter now. The instance's ProcessFrameTime
 * is a call into code outside this model: its outcome is a parameter, and
 * the elapsed time it is asked for is returned. Host calls (invalidation,
 * frame-update registration, drawing) are returned as flags.
 */
module GifVisual {
  import opened Wrappers

  /** Identity of a GIF instance sent to the handler. */
  type InstanceId = nat

  datatype Message = StartMessage | StopMessage | InstanceMessage(instance: InstanceId) | OtherMessage

  /** What the instance's ProcessFrameTime did: returned a bitmap, returned null, or threw. */
  datatype FrameTimeResult = Bitmap | NoBitmap | Threw

  /** The animation clock: accumulated elapsed ticks and the composition time of the last render. */
  datatype AnimationClock = AnimationClock(elapsed: int, lastServerTime: Option<int>)

  /** A render while running: adds the time since the previous render, if any, and remembers now. */
  function Tick(c: AnimationClock, now: int): AnimationClock
  {
    AnimationClock(
      if c.lastServerTime.Some? then c.elapsed + (now - c.lastServerTime.value) else c.elapsed,
      Some(now))
  }

  /** A run of renders at the composition times ts, all while running. */
  function Ticks(c: AnimationClock, ts: seq<int>): AnimationClock
    decreases |ts|
  {
    if ts == [] then c else Ticks(Tick(c, ts[0]), ts[1..])
  }

  /**
   * Elapsed time telescopes: after renders at t0, …, tn the clock has grown by
   * tn - t0, plus t0 minus the previous render's time if there was one, and it
   * remembers tn.
   */
  lemma {:induction false} TicksTelescope(c: AnimationClock, ts: seq<int>)
    requires ts != []
    ensures Ticks(c, ts).lastServerTime == Some(ts[|ts| - 1])
    ensures Ticks(c, ts).elapsed ==
      c.elapsed + (ts[|ts| - 1] - ts[0]) + (if c.lastServerTime.Some? then ts[0] - c.lastServerTime.value else 0)
    decreases |ts|
  {
    if |ts| > 1 {
      TicksTelescope(Tick(c, ts[0]), ts[1..]);
    }
  }

  /** The first render after a start adds nothing; the renders after it add exactly the time they span. */
  lemma TicksAfterStart(elapsed: int, ts: seq<int>)
    requires ts != []
    ensures Ticks(AnimationClock(elapsed, None), ts).elapsed == elapsed + (ts[|ts| - 1] - ts[0])
  {
    TicksTelescope(AnimationClock(elapsed, None), ts);
  }

  /** With a non-decreasing composition clock the elapsed time never decreases. */
  lemma {:induction false} TicksMonotone(c: AnimationClock, ts: seq<int>)
    requires forall i, j :: 0 <= i < j < |ts| ==> ts[i] <= ts[j]
    requires c.lastServerTime.Some? && ts != [] ==> c.lastServerTime.value <= ts[0]
    ensures Ticks(c, ts).elapsed >= c.elapsed
  {
    if ts != [] {
      TicksTelescope(c, ts);
    }
  }

  class GifCustomVisualHandler {
    var animationElapsed: int
    var lastServerTime: Option<int>
    var currentInstance: Option<InstanceId>
    var running: bool
    /** The instances whose Dispose this handler has called. */
    var disposed: set<InstanceId>

    function Clock(): AnimationClock
      reads this
    {
      AnimationClock(animationElapsed, lastServerTime)
    }

    constructor ()
      ensures animationElapsed == 0 && lastServerTime == None && currentInstance == None
      ensures !running && disposed == {}
    {
      animationElapsed := 0;
      lastServerTime := None;
      currentInstance := None;
      running := false;
      disposed := {};
    }

    /**
     * Start sets running, forgets the last render time and registers for the
     * next animation frame; Stop clears running and disposes and drops the
     * current instance; an instance message disposes the previous instance and
     * installs the new one; anything else is ignored.
     */
    method OnMessage(message: Message) returns (registered: bool)
      modifies this`running, this`lastServerTime, this`currentInstance, this`disposed
      ensures registered <==> message == StartMessage
      ensures message == StartMessage ==>
        && running && lastServerTime == None
        && currentInstance == old(currentInstance) && disposed == old(disposed)
      ensures message == StopMessage ==>
        && !running && currentInstance == None && lastServerTime == old(lastServerTime)
        && disposed == old(disposed) + (if old(currentInstance).Some? then {old(currentInstance).value} else {})
      ensures message.InstanceMessage? ==>
        && currentInstance == Some(message.instance)
        && running == old(running) && lastServerTime == old(lastServerTime)
        && disposed == old(disposed) + (if old(currentInstance).Some? then {old(currentInstance).value} else {})
      ensures message == OtherMessage ==>
        && running == old(running) && lastServerTime == old(lastServerTime)
        && currentInstance == old(currentInstance) && disposed == old(disposed)
    {
      registered := false;
      match message
      case StartMessage =>
        running := true;
        lastServerTime := None;
        registered := true;
      case StopMessage =>
        running := false;
        DisposeCurrent();
        currentInstance := None;
      case InstanceMessage(instance) =>
        DisposeCurrent();
        currentInstance := Some(instance);
      case OtherMessage =>
    }

    method DisposeCurrent()
      modifies this`disposed
      ensures disposed == old(disposed) + (if currentInstance.Some? then {currentInstance.value} else {})
    {
      if currentInstance.Some? {
        disposed := disposed + {currentInstance.value};
      }
    }

    /** While running, invalidates the visual and registers for the next frame; otherwise does nothing. */
    method OnAnimationFrameUpdate() returns (invalidated: bool, registered: bool)
      ensures invalidated == running && registered == running
    {
      if !running {
        return false, false;
      }
      invalidated, registered := true, true;
    }

    /**
     * A render. While running the clock ticks (Tick); otherwise it stays.
     * With no instance, or a disposed one, no frame is requested and nothing
     * is drawn. Otherwise the frame at the accumulated elapsed time is
     * requested and drawn when the instance returned a bitmap.
     */
    method OnRender(now: int, result: FrameTimeResult) returns (requested: Option<int>, drew: bool)
      modifies this`animationElapsed, this`lastServerTime
      ensures running ==> Clock() == Tick(old(Clock()), now)
      ensures running ==> lastServerTime == Some(now)
      ensures running && old(lastServerTime).Some? && now >= old(lastServerTime).value ==>
        animationElapsed >= old(animationElapsed)
      ensures running && old(lastServerTime) == None ==> animationElapsed == old(animationElapsed)
      ensures !running ==> Clock() == old(Clock())
      ensures currentInstance == None || currentInstance.value in disposed ==> requested == None && !drew
      ensures currentInstance.Some? && currentInstance.value !in disposed ==>
        requested == Some(animationElapsed) && (drew <==> result == Bitmap)
    {
      if running {
        if lastServerTime.Some? {
          animationElapsed := animationElapsed + (now - lastServerTime.value);
        }
        lastServerTime := Some(now);
      }
      requested, drew := None, false;
      if currentInstance == None || currentInstance.value in disposed {
        return;
      }
      requested := Some(animationElapsed);
      // A Threw result is caught and logged by the handler; nothing is drawn.
      drew := result == Bitmap;
    }
  }
}
