/**
 * The decoder as the playback controller sees it: an abstract frame table and
 * the parts of the header it reads. Pixel decoding, LZW and disposal
 * compositing are behind RenderFrame, which the controller only calls.
 */
module GifDecoding {

  /** How a frame's region is treated before the next frame is drawn. */
  datatype FrameDisposal = Unknown | Leave | Background | Restore

  /** One decoded frame descriptor: disposal, delay in ticks, and its colour table. */
  datatype GifFrame = GifFrame(
    disposal: FrameDisposal,
    delay: nat,
    isLocalColorTableUsed: bool,
    localColorTableCacheId: nat)

  /** The two header fields the controller reads. */
  datatype GifHeader = GifHeader(hasGlobalColorTable: bool, globalColorTableCacheId: nat)

  /** Repeat policy: loop forever, or stop after the given number of iterations. */
  datatype GifRepeatBehavior = GifRepeatBehavior(loopForever: bool, count: int)

  /** The cache IDs of the frames that carry a local colour table, in frame order. */
  function LocalTableIds(frames: seq<GifFrame>): seq<nat>
  {
    if frames == [] then []
    else
      (if frames[0].isLocalColorTableUsed then [frames[0].localColorTableCacheId] else [])
      + LocalTableIds(frames[1..])
  }

  /** The list is built frame by frame: the IDs of a concatenation are the concatenated IDs. */
  lemma {:induction false} LocalTableIdsConcat(a: seq<GifFrame>, b: seq<GifFrame>)
    ensures LocalTableIds(a + b) == LocalTableIds(a) + LocalTableIds(b)
    decreases |a|
  {
    if a == [] {
      assert a + b == b;
    } else {
      assert (a + b)[0] == a[0];
      assert (a + b)[1..] == a[1..] + b;
      LocalTableIdsConcat(a[1..], b);
    }
  }

  /** An ID is listed exactly when some frame uses a local table with that ID. */
  lemma {:induction false} LocalTableIdsMembers(frames: seq<GifFrame>)
    ensures forall id :: id in LocalTableIds(frames) <==>
      exists i :: 0 <= i < |frames| && frames[i].isLocalColorTableUsed && frames[i].localColorTableCacheId == id
    decreases |frames|
  {
    if frames != [] {
      LocalTableIdsMembers(frames[1..]);
      forall id | id in LocalTableIds(frames)
        ensures exists i :: 0 <= i < |frames| && frames[i].isLocalColorTableUsed && frames[i].localColorTableCacheId == id
      {
        if !(frames[0].isLocalColorTableUsed && frames[0].localColorTableCacheId == id) {
          assert id in LocalTableIds(frames[1..]);
          var j :| 0 <= j < |frames[1..]| && frames[1..][j].isLocalColorTableUsed && frames[1..][j].localColorTableCacheId == id;
          assert frames[j + 1] == frames[1..][j];
        }
      }
      forall id | exists i :: 0 <= i < |frames| && frames[i].isLocalColorTableUsed && frames[i].localColorTableCacheId == id
        ensures id in LocalTableIds(frames)
      {
        var i :| 0 <= i < |frames| && frames[i].isLocalColorTableUsed && frames[i].localColorTableCacheId == id;
        if i > 0 {
          assert frames[1..][i - 1] == frames[i];
        }
      }
    }
  }

  /**
   * The colour-table IDs the worker keeps alive in the palette cache: the local
   * IDs in frame order, then the global ID when the header has a global table.
   */
  function ColorTableIds(frames: seq<GifFrame>, header: GifHeader): (ids: seq<nat>)
    ensures |ids| == |LocalTableIds(frames)| + (if header.hasGlobalColorTable then 1 else 0)
    ensures ids[..|LocalTableIds(frames)|] == LocalTableIds(frames)
    ensures header.hasGlobalColorTable ==> ids[|ids| - 1] == header.globalColorTableCacheId
  {
    LocalTableIds(frames) + if header.hasGlobalColorTable then [header.globalColorTableCacheId] else []
  }
}
