/**
 * The background playback controller of an animated GIF: a command queue
 * consumed by a loop that steps a small state machine, advances frames at
 * their delay, counts iterations and serves manual seeks.
 *
 * The decoder is abstract: RenderFrame records the index it is asked to render
 * in the ghost renderLog, a palette-cache touch records the cache ID in the
 * ghost touchLog, and releasing the decoder bumps decoderDisposeCalls. Time is
 * passed in: renderTicks is how long the RenderFrame call took.
 */
module GifWorker {
  import opened Wrappers
  import opened GifDecoding
  import opened SeekPolicy

  datatype BgWorkerState = Null | Start | Running | Paused | Complete | Dispose

  datatype BgWorkerCommand = Play | Pause | Dispose

  /** What one turn of the main loop did. */
  datatype LoopStep = Continued | Stopped | Faulted

  /** The playback variables the frame advance reads and writes. */
  datatype Playback = Playback(state: BgWorkerState, currentIndex: int, iterationCount: nat)

  /** A finite repeat policy whose iterations are used up. */
  predicate Finished(p: Playback, behavior: GifRepeatBehavior)
  {
    !behavior.loopForever && p.iterationCount > behavior.count
  }

  /**
   * One frame advance while Running. When the finite repeat count is used up
   * the state becomes Complete and nothing else moves. Otherwise the index
   * moves to the next frame, wrapping from the last frame to frame 0, and the
   * iteration count grows by one exactly when the policy is finite, the new
   * index is 0 and the render took no longer than frame 0's delay.
   */
  function Advance(p: Playback, behavior: GifRepeatBehavior, frames: seq<GifFrame>, renderTicks: nat): (r: Playback)
    requires -1 <= p.currentIndex < |frames|
    requires Finished(p, behavior) || |frames| > 0
    ensures Finished(p, behavior) ==> r == p.(state := Complete)
    ensures !Finished(p, behavior) ==>
      && r.state == p.state
      && 0 <= r.currentIndex < |frames|
      && (if p.currentIndex == |frames| - 1 then r.currentIndex == 0 else r.currentIndex == p.currentIndex + 1)
      && (r.iterationCount == p.iterationCount + 1 <==>
            !behavior.loopForever && r.currentIndex == 0 && renderTicks <= frames[0].delay)
      && (r.iterationCount == p.iterationCount || r.iterationCount == p.iterationCount + 1)
  {
    if Finished(p, behavior) then p.(state := Complete)
    else
      var next := (p.currentIndex + 1) % |frames|;
      var counted := !behavior.loopForever && next == 0 && renderTicks <= frames[next].delay;
      p.(currentIndex := next, iterationCount := if counted then p.iterationCount + 1 else p.iterationCount)
  }

  /**
   * k turns of the state machine's frame side: Start becomes Running, Running
   * advances one frame taking renderTicks to render, and the other states
   * (Null, Paused, Complete, Dispose) do not move.
   */
  function RunSteps(p: Playback, behavior: GifRepeatBehavior, frames: seq<GifFrame>, renderTicks: nat, k: nat): (r: Playback)
    requires |frames| > 0 && -1 <= p.currentIndex < |frames|
    ensures -1 <= r.currentIndex < |frames|
    decreases k
  {
    if k == 0 then p
    else
      var q := RunSteps(p, behavior, frames, renderTicks, k - 1);
      if q.state == Running then Advance(q, behavior, frames, renderTicks)
      else if q.state == Start then q.(state := Running)
      else q
  }

  /**
   * Playing a finite policy of c iterations from a fresh start, with renders
   * of t ticks that keep to frame 0's delay: at turn j = lap * n + i + 1
   * (n frames, i < n) the controller is still Running, shows frame i and has
   * counted lap + 1 iterations.
   */
  lemma {:induction false} LapPosition(frames: seq<GifFrame>, c: nat, t: nat, lap: nat, i: nat, j: nat)
    requires |frames| > 0 && i < |frames| && t <= frames[0].delay
    requires lap < c || (lap == c && i == 0)
    requires j == lap * |frames| + i + 1
    ensures RunSteps(Playback(Running, -1, 0), GifRepeatBehavior(false, c), frames, t, j)
         == Playback(Running, i, lap + 1)
    decreases lap, i
  {
    var n := |frames|;
    var b := GifRepeatBehavior(false, c);
    var start := Playback(Running, -1, 0);
    if i > 0 {
      LapPosition(frames, c, t, lap, i - 1, j - 1);
      assert RunSteps(start, b, frames, t, j) == Advance(Playback(Running, i - 1, lap + 1), b, frames, t);
    } else if lap > 0 {
      assert (lap - 1) * n == lap * n - n;
      LapPosition(frames, c, t, lap - 1, n - 1, j - 1);
      assert RunSteps(start, b, frames, t, j) == Advance(Playback(Running, n - 1, lap), b, frames, t);
    } else {
      assert RunSteps(start, b, frames, t, 1) == Advance(start, b, frames, t);
    }
  }

  /** Once the state is Null, Paused, Complete or Dispose, further turns change nothing. */
  lemma {:induction false} StoppedStaysStopped(p: Playback, behavior: GifRepeatBehavior, frames: seq<GifFrame>, renderTicks: nat, k: nat, m: nat)
    requires |frames| > 0 && -1 <= p.currentIndex < |frames|
    requires RunSteps(p, behavior, frames, renderTicks, k).state !in {Running, Start}
    ensures RunSteps(p, behavior, frames, renderTicks, k + m) == RunSteps(p, behavior, frames, renderTicks, k)
    decreases m
  {
    if m > 0 {
      StoppedStaysStopped(p, behavior, frames, renderTicks, k, m - 1);
    }
  }

  /**
   * With a finite policy of c iterations and renders of t ticks that keep to
   * frame 0's delay, playback from a fresh start draws frame 0 for the
   * (c + 1)-th time at turn c * n + 1, becomes Complete at turn c * n + 2
   * still showing frame 0, and stays there.
   */
  lemma FiniteRepeatCompletes(frames: seq<GifFrame>, c: nat, t: nat)
    requires |frames| > 0 && t <= frames[0].delay
    ensures RunSteps(Playback(Running, -1, 0), GifRepeatBehavior(false, c), frames, t, c * |frames| + 1)
         == Playback(Running, 0, c + 1)
    ensures forall k: nat :: k >= c * |frames| + 2 ==>
      RunSteps(Playback(Running, -1, 0), GifRepeatBehavior(false, c), frames, t, k) == Playback(Complete, 0, c + 1)
  {
    var n := |frames|;
    var b := GifRepeatBehavior(false, c);
    var start := Playback(Running, -1, 0);
    LapPosition(frames, c, t, c, 0, c * n + 1);
    assert RunSteps(start, b, frames, t, c * n + 2) == Playback(Complete, 0, c + 1);
    forall k: nat | k >= c * n + 2
      ensures RunSteps(start, b, frames, t, k) == Playback(Complete, 0, c + 1)
    {
      StoppedStaysStopped(start, b, frames, t, c * n + 2, k - (c * n + 2));
    }
  }

  /** Looping forever never completes and never counts an iteration. */
  lemma {:induction false} LoopForeverKeepsRunning(p: Playback, behavior: GifRepeatBehavior, frames: seq<GifFrame>, renderTicks: nat, k: nat)
    requires |frames| > 0 && -1 <= p.currentIndex < |frames|
    requires behavior.loopForever && p.state == Running
    ensures RunSteps(p, behavior, frames, renderTicks, k).state == Running
    ensures RunSteps(p, behavior, frames, renderTicks, k).iterationCount == p.iterationCount
    decreases k
  {
    if k > 0 {
      LoopForeverKeepsRunning(p, behavior, frames, renderTicks, k - 1);
    }
  }

  /**
   * An iteration only counts when frame 0's render keeps to its delay: if that
   * render is slower, a finite policy that is not yet finished never completes.
   */
  lemma {:induction false} SlowFirstFrameNeverCompletes(p: Playback, behavior: GifRepeatBehavior, frames: seq<GifFrame>, renderTicks: nat, k: nat)
    requires |frames| > 0 && -1 <= p.currentIndex < |frames|
    requires p.state == Running && !Finished(p, behavior)
    requires renderTicks > frames[0].delay
    ensures RunSteps(p, behavior, frames, renderTicks, k).state == Running
    ensures RunSteps(p, behavior, frames, renderTicks, k).iterationCount == p.iterationCount
    decreases k
  {
    if k > 0 {
      SlowFirstFrameNeverCompletes(p, behavior, frames, renderTicks, k - 1);
    }
  }

  /** The state a Play command leads to (a Complete animation is also reset first). */
  function AfterPlay(s: BgWorkerState): BgWorkerState
  {
    match s
    case Null => Start
    case Paused => Running
    case Complete => Start
    case _ => s
  }

  class GifBackgroundWorker {
    const frames: seq<GifFrame>
    const header: GifHeader
    /** The palette-cache IDs refreshed while paused or complete. */
    const colorTableIdList: seq<nat>

    var state: BgWorkerState
    var currentIndex: int
    var iterationCount: nat
    var repeatBehavior: GifRepeatBehavior
    var cmdQueue: seq<BgWorkerCommand>
    var shouldStop: bool

    /** Frame indices handed to the decoder's RenderFrame, oldest first. */
    ghost var renderLog: seq<int>
    /** Palette-cache IDs touched, oldest first. */
    ghost var touchLog: seq<nat>
    /** How often the decoder was released. */
    ghost var decoderDisposeCalls: nat

    ghost predicate Valid()
      reads this
    {
      -1 <= currentIndex < |frames|
    }

    function Snapshot(): Playback
      reads this
    {
      Playback(state, currentIndex, iterationCount)
    }

    /**
     * A worker over a decoded frame table. The initial reset sets the index
     * to -1 through the frame-index setter, which renders nothing.
     */
    constructor (frames: seq<GifFrame>, header: GifHeader)
      ensures Valid()
      ensures this.frames == frames && this.header == header
      ensures colorTableIdList == ColorTableIds(frames, header)
      ensures state == Null && currentIndex == -1 && iterationCount == 0
      ensures repeatBehavior == GifRepeatBehavior(true, 0)
      ensures cmdQueue == [] && !shouldStop
      ensures renderLog == [] && touchLog == [] && decoderDisposeCalls == 0
    {
      this.frames := frames;
      this.header := header;
      colorTableIdList := ColorTableIds(frames, header);
      state := Null;
      currentIndex := -1;
      iterationCount := 0;
      repeatBehavior := GifRepeatBehavior(true, 0);
      cmdQueue := [];
      shouldStop := false;
      renderLog := [];
      touchLog := [];
      decoderDisposeCalls := 0;
    }

    /** The decoder renders frame i. */
    method RenderFrame(i: int)
      requires 0 <= i < |frames|
      modifies this`renderLog
      ensures renderLog == old(renderLog) + [i]
    {
      renderLog := renderLog + [i];
    }

    /** The palette cache is asked for the table with this ID, keeping it alive. */
    method TouchColorTable(id: nat)
      modifies this`touchLog
      ensures touchLog == old(touchLog) + [id]
    {
      touchLog := touchLog + [id];
    }

    method RefreshColorTableCache()
      modifies this`touchLog
      ensures touchLog == old(touchLog) + colorTableIdList
    {
      var i := 0;
      while i < |colorTableIdList|
        invariant 0 <= i <= |colorTableIdList|
        invariant touchLog == old(touchLog) + colorTableIdList[..i]
      {
        TouchColorTable(colorTableIdList[i]);
        assert colorTableIdList[..i + 1] == colorTableIdList[..i] + [colorTableIdList[i]];
        i := i + 1;
      }
      assert colorTableIdList[..i] == colorTableIdList;
    }

    /** Stores the new index; a manual seek out of Complete pauses and restarts the count. */
    method SetIndexVal(value: int, manual: bool)
      requires -1 <= value < |frames|
      modifies this`currentIndex, this`state, this`iterationCount
      ensures Valid() && currentIndex == value
      ensures manual && old(state) == Complete ==> state == Paused && iterationCount == 0
      ensures !(manual && old(state) == Complete) ==> state == old(state) && iterationCount == old(iterationCount)
    {
      currentIndex := value;
      if manual {
        if state == Complete {
          state := Paused;
          iterationCount := 0;
        }
      }
    }

    /**
     * Seeks to frame value, rendering the frames of SeekPlan. When the plan is
     * None the frame-table lookup at index -1 fails before anything is
     * rendered, ok is false and nothing changes.
     */
    method InternalSeek(value: int, manual: bool) returns (ok: bool)
      requires Valid() && -1 <= value < |frames|
      modifies this`renderLog, this`currentIndex, this`state, this`iterationCount
      ensures Valid()
      ensures ok == SeekPlan(frames, old(currentIndex), value, manual).Some?
      ensures !ok ==> renderLog == old(renderLog) && Snapshot() == old(Snapshot())
      ensures ok ==> renderLog == old(renderLog) + SeekPlan(frames, old(currentIndex), value, manual).value
      ensures ok ==> currentIndex == value
      ensures ok && manual && old(state) == Complete ==> state == Paused && iterationCount == 0
      ensures ok && !(manual && old(state) == Complete) ==>
        state == old(state) && iterationCount == old(iterationCount)
    {
      var lowerBound := 0;
      if manual && value > currentIndex {
        if value - currentIndex == 1 {
          RenderFrame(value);
          SetIndexVal(value, manual);
          return true;
        }
        lowerBound := currentIndex;
      }
      var fI := lowerBound;
      while fI <= value
        invariant lowerBound <= fI && (lowerBound <= value + 1 ==> fI <= value + 1)
        invariant Snapshot() == old(Snapshot())
        invariant lowerBound < 0 ==> fI == lowerBound && renderLog == old(renderLog)
        invariant lowerBound >= 0 ==> renderLog == old(renderLog) + Rendered(frames, lowerBound, fI, value)
      {
        if !(0 <= fI < |frames|) {
          // The frame-table indexer throws.
          return false;
        }
        var targetFrame := frames[fI];
        if fI != value && targetFrame.disposal == Restore {
          fI := fI + 1;
          continue;
        }
        RenderFrame(fI);
        fI := fI + 1;
      }
      SetIndexVal(value, manual);
      ok := true;
    }

    /** The CurrentFrameIndex setter: seeks manually unless value is already the current index. */
    method SetCurrentFrameIndex(value: int) returns (ok: bool)
      requires Valid() && -1 <= value < |frames|
      modifies this`renderLog, this`currentIndex, this`state, this`iterationCount
      ensures Valid()
      ensures value == old(currentIndex) ==> ok && renderLog == old(renderLog) && Snapshot() == old(Snapshot())
      ensures value != old(currentIndex) ==> ok == SeekPlan(frames, old(currentIndex), value, true).Some?
      ensures value != old(currentIndex) && !ok ==> renderLog == old(renderLog) && Snapshot() == old(Snapshot())
      ensures value != old(currentIndex) && ok ==>
        && renderLog == old(renderLog) + SeekPlan(frames, old(currentIndex), value, true).value
        && currentIndex == value
        && (old(state) == Complete ==> state == Paused && iterationCount == 0)
        && (old(state) != Complete ==> state == old(state) && iterationCount == old(iterationCount))
    {
      ok := true;
      if value != currentIndex {
        ok := InternalSeek(value, true);
      }
    }

    /** Restarts the count and moves the index back to -1 without rendering. */
    method ResetPlayVars()
      requires Valid()
      modifies this`renderLog, this`currentIndex, this`state, this`iterationCount
      ensures Valid()
      ensures iterationCount == 0 && currentIndex == -1 && renderLog == old(renderLog)
      ensures state == if old(state) == Complete && old(currentIndex) != -1 then Paused else old(state)
    {
      iterationCount := 0;
      ghost var before := currentIndex;
      assert before != -1 ==> SeekPlan(frames, before, -1, true) == Some([]);
      var ok := SetCurrentFrameIndex(-1);
    }

    /**
     * The IterationCount setter: shows frame 0, resets the playback variables,
     * pauses, and stores the new policy.
     */
    method SetIterationCount(value: GifRepeatBehavior)
      requires Valid() && |frames| > 0
      modifies this`renderLog, this`currentIndex, this`state, this`iterationCount, this`repeatBehavior
      ensures Valid()
      ensures state == Paused && iterationCount == 0 && currentIndex == -1 && repeatBehavior == value
      ensures renderLog == old(renderLog) + [0]
    {
      assert SeekPlan(frames, currentIndex, 0, true) == Some([0]) by {
        if currentIndex >= 0 {
          assert Rendered(frames, 0, 0, 0) == [];
          assert Rendered(frames, 0, 1, 0) == [0];
        }
      }
      var ok := InternalSeek(0, true);
      ResetPlayVars();
      state := Paused;
      repeatBehavior := value;
    }

    method SendCommand(cmd: BgWorkerCommand)
      modifies this`cmdQueue
      ensures cmdQueue == old(cmdQueue) + [cmd]
    {
      cmdQueue := cmdQueue + [cmd];
    }

    /** Marks the worker disposed, stops the loop and releases the decoder. */
    method DoDispose()
      modifies this`state, this`shouldStop, this`decoderDisposeCalls
      ensures state == BgWorkerState.Dispose && shouldStop
      ensures decoderDisposeCalls == old(decoderDisposeCalls) + 1
    {
      state := BgWorkerState.Dispose;
      shouldStop := true;
      decoderDisposeCalls := decoderDisposeCalls + 1;
    }

    /** Takes at most one command off the front of the queue and applies it. */
    method CheckCommands() returns (handled: Option<BgWorkerCommand>)
      requires Valid()
      modifies this`cmdQueue, this`state, this`currentIndex, this`iterationCount, this`shouldStop,
        this`decoderDisposeCalls, this`renderLog
      ensures Valid() && renderLog == old(renderLog)
      ensures old(cmdQueue) == [] ==>
        && handled == None && cmdQueue == []
        && Snapshot() == old(Snapshot()) && shouldStop == old(shouldStop)
        && decoderDisposeCalls == old(decoderDisposeCalls)
      ensures old(cmdQueue) != [] ==> handled == Some(old(cmdQueue)[0]) && cmdQueue == old(cmdQueue)[1..]
      ensures handled == Some(BgWorkerCommand.Dispose) ==>
        && state == BgWorkerState.Dispose && shouldStop
        && decoderDisposeCalls == old(decoderDisposeCalls) + 1
        && currentIndex == old(currentIndex) && iterationCount == old(iterationCount)
      ensures handled == Some(Play) ==>
        && state == AfterPlay(old(state))
        && (old(state) == Complete ==> currentIndex == -1 && iterationCount == 0)
        && (old(state) != Complete ==> currentIndex == old(currentIndex) && iterationCount == old(iterationCount))
        && shouldStop == old(shouldStop) && decoderDisposeCalls == old(decoderDisposeCalls)
      ensures handled == Some(Pause) ==>
        && state == (if old(state) == Running then Paused else old(state))
        && currentIndex == old(currentIndex) && iterationCount == old(iterationCount)
        && shouldStop == old(shouldStop) && decoderDisposeCalls == old(decoderDisposeCalls)
    {
      if |cmdQueue| <= 0 {
        return None;
      }
      var cmd := cmdQueue[0];
      cmdQueue := cmdQueue[1..];
      handled := Some(cmd);
      match cmd
      case Dispose =>
        DoDispose();
      case Play =>
        match state {
          case Null =>
            state := Start;
          case Paused =>
            state := Running;
          case Complete =>
            ResetPlayVars();
            state := Start;
          case _ =>
        }
      case Pause =>
        if state == Running {
          state := Paused;
        }
    }

    /**
     * One frame advance: the Advance transition on the playback variables, with
     * the new frame rendered unless the animation completed. The sleep that
     * holds the frame rate is returned (None when the render overran the
     * delay, which also skips the iteration count). With an empty frame table
     * the index computation divides by zero: ok is false and nothing changes.
     */
    method WaitAndRenderNext(renderTicks: nat) returns (ok: bool, slept: Option<nat>)
      requires Valid()
      modifies this`state, this`currentIndex, this`iterationCount, this`renderLog
      ensures Valid()
      ensures ok <==> Finished(old(Snapshot()), repeatBehavior) || |frames| > 0
      ensures !ok ==> Snapshot() == old(Snapshot()) && renderLog == old(renderLog) && slept == None
      ensures ok ==> Snapshot() == Advance(old(Snapshot()), repeatBehavior, frames, renderTicks)
      ensures ok && Finished(old(Snapshot()), repeatBehavior) ==> renderLog == old(renderLog) && slept == None
      ensures ok && !Finished(old(Snapshot()), repeatBehavior) ==>
        && renderLog == old(renderLog) + [currentIndex]
        && slept == (if renderTicks <= frames[currentIndex].delay then Some(frames[currentIndex].delay - renderTicks) else None)
    {
      if !repeatBehavior.loopForever && iterationCount > repeatBehavior.count {
        state := Complete;
        return true, None;
      }
      if |frames| == 0 {
        return false, None;
      }
      currentIndex := (currentIndex + 1) % |frames|;
      var targetDelay := frames[currentIndex].delay;
      RenderFrame(currentIndex);
      if renderTicks > targetDelay {
        return true, None;
      }
      slept := Some(targetDelay - renderTicks);
      if !repeatBehavior.loopForever && currentIndex == 0 {
        iterationCount := iterationCount + 1;
      }
      ok := true;
    }

    /**
     * One step of the state machine: Start becomes Running, Running advances
     * a frame, Paused and Complete keep their palettes alive, Null and Dispose
     * idle. ok is false only when the frame advance faults.
     */
    method DoStates(renderTicks: nat) returns (ok: bool)
      requires Valid()
      modifies this`state, this`currentIndex, this`iterationCount, this`renderLog, this`touchLog
      ensures Valid()
      ensures old(state) != Running ==> ok && renderLog == old(renderLog)
      ensures old(state) in {Null, BgWorkerState.Dispose} ==> Snapshot() == old(Snapshot()) && touchLog == old(touchLog)
      ensures old(state) in {Paused, Complete} ==>
        Snapshot() == old(Snapshot()) && touchLog == old(touchLog) + colorTableIdList
      ensures old(state) == Start ==> Snapshot() == old(Snapshot()).(state := Running) && touchLog == old(touchLog)
      ensures old(state) == Running ==>
        && touchLog == old(touchLog)
        && (ok <==> Finished(old(Snapshot()), repeatBehavior) || |frames| > 0)
        && (!ok ==> Snapshot() == old(Snapshot()) && renderLog == old(renderLog))
        && (ok ==> Snapshot() == Advance(old(Snapshot()), repeatBehavior, frames, renderTicks))
        && (ok && !Finished(old(Snapshot()), repeatBehavior) ==> renderLog == old(renderLog) + [currentIndex])
        && (ok && Finished(old(Snapshot()), repeatBehavior) ==> renderLog == old(renderLog))
    {
      ok := true;
      match state
      case Null =>
      case Paused =>
        RefreshColorTableCache();
      case Start =>
        state := Running;
      case Running =>
        var slept;
        ok, slept := WaitAndRenderNext(renderTicks);
      case Complete =>
        RefreshColorTableCache();
      case Dispose =>
    }

    /**
     * One turn of the main loop: when a stop is pending or cancellation is
     * requested the worker disposes itself and the loop exits; otherwise one
     * command is handled and the state machine takes one step.
     */
    method MainLoopStep(cancelRequested: bool, renderTicks: nat) returns (step: LoopStep)
      requires Valid()
      modifies this`cmdQueue, this`state, this`currentIndex, this`iterationCount, this`shouldStop,
        this`decoderDisposeCalls, this`renderLog, this`touchLog
      ensures Valid()
      ensures old(shouldStop) || cancelRequested ==>
        && step == Stopped && state == BgWorkerState.Dispose && shouldStop
        && decoderDisposeCalls == old(decoderDisposeCalls) + 1
        && cmdQueue == old(cmdQueue) && currentIndex == old(currentIndex) && iterationCount == old(iterationCount)
        && renderLog == old(renderLog) && touchLog == old(touchLog)
      ensures !(old(shouldStop) || cancelRequested) ==>
        && step != Stopped
        && cmdQueue == (if old(cmdQueue) == [] then [] else old(cmdQueue)[1..])
        && |old(renderLog)| <= |renderLog| <= |old(renderLog)| + 1
        && renderLog[..|old(renderLog)|] == old(renderLog)
        && (step == Faulted ==> |frames| == 0)
    {
      if shouldStop || cancelRequested {
        DoDispose();
        return Stopped;
      }
      var handled := CheckCommands();
      var ok := DoStates(renderTicks);
      step := if ok then Continued else Faulted;
    }
  }
}
