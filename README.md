# Avalonia GIF playback controller — Dafny model

This project models the playback side of the Avalonia GIF control:

- the **background worker** (`AvaloniaGif/GifBackgroundWorker.cs`) that owns a
  frame table, a FIFO command queue (Play, Pause, Dispose) and a state machine
  over Null, Start, Running, Paused, Complete and Dispose. It advances frames at
  their delay, counts loop iterations against a repeat policy, keeps the palette
  cache warm while paused or complete, and serves manual seeks. A seek has a
  one-frame fast path, re-renders from the current frame on a forward jump, and
  replays from frame 0 otherwise, skipping non-target frames whose disposal is
  Restore;
- the **compositor-driven handler** (`Avalonia.Gif/GifCustomVisualHandler.cs`)
  that reacts to start, stop and instance messages and accumulates the
  animation's elapsed time from the composition clock on each render.

The GIF decoder is abstract. It is a frame table (`GifDecoding.GifFrame`:
disposal, delay in ticks, local-table flag, cache ID) plus the two header
fields the worker reads. `RenderFrame(i)` appends `i` to the ghost `renderLog`.
A palette-cache lookup appends the ID to the ghost `touchLog`. Releasing the
decoder increments the ghost `decoderDisposeCalls`.

Layout: `wrappers.dfy` (Option), `gif_decoding.dfy` (frame table and
colour-table ID list), `seek_policy.dfy` (the seek plan as a pure function with
its lemmas), `gif_background_worker.dfy` (the frame-advance transition, its
multi-step lemmas, and the worker class), `gif_custom_visual_handler.dfy`
(clock functions, their lemmas, and the handler class).

Behaviour of the source worth noting:

- A manual forward seek of more than one frame from the initial index −1 makes
  the replay loop start at index −1. The frame-table lookup there throws before
  anything is rendered. The model returns this as an error outcome
  (`SeekPlan` is `None`, `InternalSeek` returns `false`) and changes nothing.
- Seeks skip every non-target frame whose disposal is Restore, on the forward
  path and on the replay-from-0 path alike.
- For a finite repeat count c, the animation becomes Complete one turn after it
  lands on frame 0 for the (c + 1)-th time. So it ends showing frame 0, not the
  last frame (`FiniteRepeatCompletes`).
- An iteration is counted only when rendering frame 0 took no longer than
  frame 0's delay. If that render is always slower, a finite policy never
  completes (`SlowFirstFrameNeverCompletes`).
- Play from Null only moves to Start. Only Play from Complete resets the index
  and the iteration count.

## Model

| member | source | states |
|---|---|---|
| `GifDecoding.ColorTableIds` | AvaloniaGif/GifBackgroundWorker.cs:123-131 | the ID list is the local-table IDs, then the global ID when the header has a global table, and nothing else |
| `GifDecoding.LocalTableIdsConcat` | AvaloniaGif/GifBackgroundWorker.cs:125-128 | the local-table IDs keep frame order: the IDs of `a + b` are those of `a` followed by those of `b` |
| `GifDecoding.LocalTableIdsMembers` | AvaloniaGif/GifBackgroundWorker.cs:125-128 | an ID is in the local list if and only if some frame uses a local table with that ID |
| `SeekPolicy.SeekPlan` | AvaloniaGif/GifBackgroundWorker.cs:67-97 | a seek fails exactly when it is a manual forward jump of more than one frame from index −1; a manual seek to `currentIndex + 1` renders only that frame |
| `SeekPolicy.RenderedMembers` | AvaloniaGif/GifBackgroundWorker.cs:85-94 | the replay loop draws index k if and only if k is in range and k is the target or its disposal is not Restore |
| `SeekPolicy.RenderedIncreasing` | AvaloniaGif/GifBackgroundWorker.cs:85-94 | the replay loop draws in strictly ascending index order |
| `SeekPolicy.SeekForwardFromCurrent` | AvaloniaGif/GifBackgroundWorker.cs:72-94 | a manual forward jump of more than one frame renders, in ascending order, exactly the indices `currentIndex..value` that are the target or not Restore (the current frame included) |
| `SeekPolicy.SeekReplaysFromZero` | AvaloniaGif/GifBackgroundWorker.cs:69-94 | a backward or equal seek, or an automatic one, renders, in ascending order, exactly the indices `0..value` that are the target or not Restore |
| `SeekPolicy.SeekEndsAtTarget` | AvaloniaGif/GifBackgroundWorker.cs:85-101 | a successful seek renders the target last and no index outside `[0, value]`; a seek to −1 renders nothing |
| `GifWorker.Advance` | AvaloniaGif/GifBackgroundWorker.cs:248-274 | a used-up finite policy makes the state Complete and changes nothing else; otherwise the index moves to the next frame and wraps from the last frame to 0, and the count grows by one exactly when the policy is finite, the new index is 0 and the render kept to frame 0's delay |
| `GifWorker.RunSteps` | AvaloniaGif/GifBackgroundWorker.cs:169-191 | repeated state-machine turns (Start becomes Running, Running advances, the other states stay) keep the index in `[-1, frameCount)` |
| `GifWorker.LapPosition` | AvaloniaGif/GifBackgroundWorker.cs:250-273 | with renders that keep to frame 0's delay and a finite count c, turn `lap * n + i + 1` is still Running, shows frame i and has counted `lap + 1` iterations |
| `GifWorker.FiniteRepeatCompletes` | AvaloniaGif/GifBackgroundWorker.cs:250-273 | with renders that keep to frame 0's delay and a finite count c, turn `c * n + 1` shows frame 0 for the (c + 1)-th time; from turn `c * n + 2` on, the state is Complete on frame 0 |
| `GifWorker.StoppedStaysStopped` | AvaloniaGif/GifBackgroundWorker.cs:169-191 | once the state is Null, Paused, Complete or Dispose, further turns change no playback variable |
| `GifWorker.LoopForeverKeepsRunning` | AvaloniaGif/GifBackgroundWorker.cs:250-273 | looping forever never completes and never counts an iteration |
| `GifWorker.SlowFirstFrameNeverCompletes` | AvaloniaGif/GifBackgroundWorker.cs:262-273 | if rendering frame 0 takes longer than its delay, an unfinished finite policy never counts an iteration and never completes |
| `GifWorker.GifBackgroundWorker.constructor` | AvaloniaGif/GifBackgroundWorker.cs:115-137 | starts in Null at index −1 with count 0, looping forever, an empty queue, nothing rendered, and the colour-table ID list of `ColorTableIds` |
| `GifWorker.GifBackgroundWorker.RefreshColorTableCache` | AvaloniaGif/GifBackgroundWorker.cs:61-65 | touches every colour-table ID of the list, in list order |
| `GifWorker.GifBackgroundWorker.SetIndexVal` | AvaloniaGif/GifBackgroundWorker.cs:99-113 | stores the index; a manual seek out of Complete moves to Paused and resets the count; otherwise state and count are unchanged |
| `GifWorker.GifBackgroundWorker.InternalSeek` | AvaloniaGif/GifBackgroundWorker.cs:67-97 | renders exactly the frames of `SeekPlan` and leaves `currentIndex == value`, with the Complete-to-Paused rule; on the failing plan changes nothing |
| `GifWorker.GifBackgroundWorker.SetCurrentFrameIndex` | AvaloniaGif/GifBackgroundWorker.cs:44-53 | setting the current value is a no-op; any other value is a manual seek with `InternalSeek`'s effect |
| `GifWorker.GifBackgroundWorker.ResetPlayVars` | AvaloniaGif/GifBackgroundWorker.cs:55-59 | count 0 and index −1 with nothing rendered; pauses a Complete worker whose index was not already −1 |
| `GifWorker.GifBackgroundWorker.SetIterationCount` | AvaloniaGif/GifBackgroundWorker.cs:25-38 | renders frame 0 once, then leaves the worker Paused at index −1 with count 0 and the new policy stored |
| `GifWorker.GifBackgroundWorker.SendCommand` | AvaloniaGif/GifBackgroundWorker.cs:139-143 | appends the command at the back of the queue |
| `GifWorker.GifBackgroundWorker.DoDispose` | AvaloniaGif/GifBackgroundWorker.cs:235-240 | state Dispose, the stop flag set, the decoder released once more |
| `GifWorker.GifBackgroundWorker.CheckCommands` | AvaloniaGif/GifBackgroundWorker.cs:193-233 | with an empty queue nothing changes; otherwise exactly the front command is removed and applied: Play moves Null to Start, Paused to Running and Complete to Start after a reset; Pause only moves Running to Paused; Dispose disposes; nothing is rendered |
| `GifWorker.GifBackgroundWorker.WaitAndRenderNext` | AvaloniaGif/GifBackgroundWorker.cs:248-274 | the playback variables take `Advance`'s values; the new frame is rendered unless the policy is used up; the sleep is `delay − render time` when the render kept to the delay, and none otherwise; an empty frame table faults and changes nothing |
| `GifWorker.GifBackgroundWorker.DoStates` | AvaloniaGif/GifBackgroundWorker.cs:169-191 | Start becomes Running; Running advances as `WaitAndRenderNext`; Paused and Complete touch the colour-table list; Null and Dispose change nothing |
| `GifWorker.GifBackgroundWorker.MainLoopStep` | AvaloniaGif/GifBackgroundWorker.cs:154-167 | a pending stop or a cancellation disposes and exits; otherwise at most one command leaves the queue front and at most one frame is rendered |
| `GifVisual.TicksTelescope` | Avalonia.Gif/GifCustomVisualHandler.cs:47-51 | over renders at t0..tn the elapsed time grows by `tn − t0`, plus `t0` minus the previous render time if there was one, and the last render time becomes tn |
| `GifVisual.TicksAfterStart` | Avalonia.Gif/GifCustomVisualHandler.cs:19-23 | after a start (no last render time) the first render adds nothing, and the renders together add the time they span |
| `GifVisual.TicksMonotone` | Avalonia.Gif/GifCustomVisualHandler.cs:47-51 | with a non-decreasing composition clock the elapsed time never decreases |
| `GifVisual.GifCustomVisualHandler.constructor` | Avalonia.Gif/GifCustomVisualHandler.cs:10-13 | starts not running, with zero elapsed time, no last render time and no instance |
| `GifVisual.GifCustomVisualHandler.OnMessage` | Avalonia.Gif/GifCustomVisualHandler.cs:17-36 | Start sets running, clears the last render time and registers for a frame; Stop clears running and disposes and drops the instance; an instance message disposes the previous instance and installs the new one, leaving running unchanged; other messages change nothing |
| `GifVisual.GifCustomVisualHandler.OnAnimationFrameUpdate` | Avalonia.Gif/GifCustomVisualHandler.cs:38-43 | invalidates and re-registers exactly when running, and does nothing otherwise |
| `GifVisual.GifCustomVisualHandler.OnRender` | Avalonia.Gif/GifCustomVisualHandler.cs:45-68 | while running the clock ticks by `now − lastServerTime` (nothing the first time) and then remembers `now`; when not running the clock is unchanged; with no instance or a disposed one nothing is requested or drawn; otherwise the frame at the elapsed time is requested and drawn when a bitmap comes back |

## Left out

- GifDecoder internals: LZW decoding, disposal compositing and the global
  palette cache are not part of this model. `RenderFrame` and the cache lookup
  are abstract calls recorded in ghost logs. So the seek-versus-replay pixel
  equivalence is not stated.
- Threads and timing: the background task, the lock, `volatile`,
  `Thread.Sleep` and the stopwatch. Render time is the parameter
  `renderTicks`, each sleep is returned as a value, and the cancellation token
  is the parameter `cancelRequested`. The infinite `MainLoop` is one turn,
  `MainLoopStep`.
- MainLoopStep: its continue path states only the queue effect and the
  render-log bound, not the composed state change. That change is stated
  exactly by `CheckCommands` and `DoStates`.
- The `CurrentFrameChanged` callback: a host notification with no effect on the
  worker's state.
- `ShowFirstFrame`: it is never called in this file. The `GetState` getter and
  the finalizer (which calls `DoDispose`) are left out too.
- Seek targets outside `[-1, frameCount)` are excluded by a precondition, so
  three source paths are not modelled:
  - a manual seek to `currentIndex + 1 == frameCount` takes the fast path and
    hands that out-of-range index to the hidden decoder;
  - a manual forward jump of more than one past the end (`currentIndex >= 0`,
    `value >= frameCount`) renders the in-range frames from `currentIndex` on
    that are not Restore, then throws at the frame-table lookup of index
    `frameCount`, leaving the index unchanged (a partial render followed by a
    fault);
  - a target below −1 renders nothing, stores the negative index and pauses a
    Complete worker. The next Running turn then computes the new index with
    C#'s truncating remainder, which is negative unless `value + 1` is a
    multiple of the frame count, and the frame-table lookup then throws.
- SetIterationCount: requires at least one frame, because with an empty table
  it would ask the hidden decoder for frame 0.
- Integer widths: `_iterationCount` is an unbounded `nat` here, and TimeSpan
  values are unbounded integer ticks. The 32-bit and 64-bit overflow does not
  arise in practice and is not modelled.
- GifCustomVisualHandler: `disposed` holds only the instances this handler
  disposed. An instance disposed elsewhere is not modelled. `Invalidate`,
  `RegisterForNextAnimationFrameUpdate` and `DrawBitmap` are returned as
  flags. The logger call on an exception is omitted. `ProcessFrameTime` is
  external: its outcome is the parameter `result`.
- `BgWorkerState`, `BgWorkerCommand`, `FrameDisposal` and `GifRepeatBehavior`
  are declared outside the files modelled here. Their members are the ones the
  worker uses, and the default state is Null.
- UI and I/O glue (`GifImage.cs`, `GifInstance.cs`), the header record, the
  exception class, tests and demos.
