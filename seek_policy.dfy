/**
 * The frames a manual or automatic seek hands to the decoder's RenderFrame,
 * as a pure plan over the frame table. GifWorker's InternalSeek runs this plan
 * with a loop and is proved to render exactly it.
 */
module SeekPolicy {
  import opened Wrappers
  import opened GifDecoding

  /** The replay loop draws frame k unless k is not the target and k's disposal is Restore. */
  predicate Drawn(frames: seq<GifFrame>, k: nat, target: int)
    requires k < |frames|
  {
    k == target || frames[k].disposal != Restore
  }

  /** The frames the replay loop draws while it walks the indices lo, lo + 1, …, hi - 1. */
  function Rendered(frames: seq<GifFrame>, lo: nat, hi: int, target: int): seq<int>
    requires hi <= |frames|
    decreases hi - lo
  {
    if hi <= lo then []
    else Rendered(frames, lo, hi - 1, target) + (if Drawn(frames, hi - 1, target) then [hi - 1] else [])
  }

  ghost predicate StrictlyIncreasing(s: seq<int>)
  {
    forall i, j :: 0 <= i < j < |s| ==> s[i] < s[j]
  }

  /**
   * The frames a seek from index cur to index value renders, or None when the
   * replay loop reads the frame table at index -1 and the lookup fails: a manual
   * forward jump of more than one frame from the initial index -1.
   */
  function SeekPlan(frames: seq<GifFrame>, cur: int, value: int, manual: bool): (r: Option<seq<int>>)
    requires -1 <= cur < |frames| && -1 <= value < |frames|
    ensures r.None? <==> manual && cur == -1 && value > 0
    ensures manual && value == cur + 1 ==> r == Some([value])
  {
    if manual && value > cur then
      if value - cur == 1 then Some([value])
      else if cur < 0 then None
      else Some(Rendered(frames, cur, value + 1, value))
    else
      Some(Rendered(frames, 0, value + 1, value))
  }

  /** A frame is drawn exactly when it lies in [lo, hi) and is not a skipped Restore frame. */
  lemma {:induction false} RenderedMembers(frames: seq<GifFrame>, lo: nat, hi: int, target: int)
    requires hi <= |frames|
    ensures forall k :: k in Rendered(frames, lo, hi, target) <==> lo <= k < hi && Drawn(frames, k, target)
    decreases hi - lo
  {
    if hi > lo {
      RenderedMembers(frames, lo, hi - 1, target);
    }
  }

  /** The replay loop draws in ascending index order, each frame at most once. */
  lemma {:induction false} RenderedIncreasing(frames: seq<GifFrame>, lo: nat, hi: int, target: int)
    requires hi <= |frames|
    ensures StrictlyIncreasing(Rendered(frames, lo, hi, target))
    decreases hi - lo
  {
    if hi > lo {
      var prefix := Rendered(frames, lo, hi - 1, target);
      RenderedIncreasing(frames, lo, hi - 1, target);
      RenderedMembers(frames, lo, hi - 1, target);
      forall i | 0 <= i < |prefix|
        ensures prefix[i] < hi - 1
      {
        assert prefix[i] in prefix;
      }
    }
  }

  /**
   * A manual forward jump of more than one frame re-renders from the current
   * frame: it draws, in ascending order, every index from cur to value except
   * the non-target frames whose disposal is Restore.
   */
  lemma SeekForwardFromCurrent(frames: seq<GifFrame>, cur: int, value: int)
    requires 0 <= cur && cur + 1 < value < |frames|
    ensures SeekPlan(frames, cur, value, true).Some?
    ensures StrictlyIncreasing(SeekPlan(frames, cur, value, true).value)
    ensures forall k :: k in SeekPlan(frames, cur, value, true).value <==>
      cur <= k <= value && Drawn(frames, k, value)
  {
    RenderedMembers(frames, cur, value + 1, value);
    RenderedIncreasing(frames, cur, value + 1, value);
  }

  /**
   * A backward or equal seek, or any automatic one, replays from frame 0: it
   * draws, in ascending order, every index from 0 to value except the
   * non-target frames whose disposal is Restore.
   */
  lemma SeekReplaysFromZero(frames: seq<GifFrame>, cur: int, value: int, manual: bool)
    requires -1 <= cur < |frames| && -1 <= value < |frames|
    requires !manual || value <= cur
    ensures SeekPlan(frames, cur, value, manual).Some?
    ensures StrictlyIncreasing(SeekPlan(frames, cur, value, manual).value)
    ensures forall k :: k in SeekPlan(frames, cur, value, manual).value <==>
      0 <= k <= value && Drawn(frames, k, value)
  {
    RenderedMembers(frames, 0, value + 1, value);
    RenderedIncreasing(frames, 0, value + 1, value);
  }

  /**
   * Every seek that succeeds renders the target last and nothing above it; a
   * seek to -1 (the reset) renders nothing.
   */
  lemma SeekEndsAtTarget(frames: seq<GifFrame>, cur: int, value: int, manual: bool)
    requires -1 <= cur < |frames| && -1 <= value < |frames|
    requires SeekPlan(frames, cur, value, manual).Some?
    ensures var p := SeekPlan(frames, cur, value, manual).value;
      && (value == -1 ==> p == [])
      && (value >= 0 ==> |p| > 0 && p[|p| - 1] == value)
      && (forall i :: 0 <= i < |p| ==> 0 <= p[i] <= value)
  {
    var p := SeekPlan(frames, cur, value, manual).value;
    if !(manual && value - cur == 1) {
      var lo: nat := if manual && value > cur then cur else 0;
      assert p == Rendered(frames, lo, value + 1, value);
      RenderedMembers(frames, lo, value + 1, value);
      forall i | 0 <= i < |p|
        ensures 0 <= p[i] <= value
      {
        assert p[i] in p;
      }
    }
  }
}
