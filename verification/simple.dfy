/**
 `AnimatedBitmapSimpleImpl`: frames that are already decoded. The
 constructor validates and copies them; the instance is ready from the
 start and `InitAsync` does nothing.
 */
module AnimatedBitmapSimpleImpl {
  import opened AnimatedBitmap

  /** The messages of the two `ArgumentException`s the constructor throws. */
  const InconsistentCount := "delays inconsistent count with bitmaps"
  const InvalidCount := "Invalid delays.Count"

  datatype SimpleBitmap = SimpleBitmap(size: Size, frameCount: int, frames: seq<Bitmap>, delays: seq<int>)

  /** A constructed instance: one frame at least, frames and delays of one length, the size of the first frame. */
  predicate Valid(s: SimpleBitmap) {
    && |s.frames| >= 1
    && |s.frames| == |s.delays| == s.frameCount
    && s.size == s.frames[0].size
  }

  /**
   The constructor. `None` is a null collection. The null checks come first,
   then the count comparison, and only then the emptiness check, so an empty
   bitmap collection with a non-empty delay collection reports the count
   mismatch.
   */
  function New(bitmaps: Option<seq<Bitmap>>, delays: Option<seq<int>>): (r: Result<SimpleBitmap>)
    ensures bitmaps.None? ==> r == Failure(ArgumentNull("bitmaps"))
    ensures bitmaps.Some? && delays.None? ==> r == Failure(ArgumentNull("delays"))
    ensures bitmaps.Some? && delays.Some? && |bitmaps.value| != |delays.value| ==>
              r == Failure(Argument(InconsistentCount))
    ensures bitmaps == Some([]) && delays == Some([]) ==> r == Failure(Argument(InvalidCount))
    ensures r.Success? <==>
              bitmaps.Some? && delays.Some? && |bitmaps.value| == |delays.value| && |bitmaps.value| > 0
    ensures r.Success? ==>
              && Valid(r.value)
              && r.value.frames == bitmaps.value
              && r.value.delays == delays.value
  {
    match (bitmaps, delays)
    case (None, _) => Failure(ArgumentNull("bitmaps"))
    case (Some(_), None) => Failure(ArgumentNull("delays"))
    case (Some(bs), Some(ds)) =>
      var bitmapCount := |bs|;
      if |ds| != bitmapCount then Failure(Argument(InconsistentCount))
      else if |bs| == 0 then Failure(Argument(InvalidCount))
      else
        var first := bs[0];
        Success(SimpleBitmap(first.size, bitmapCount, bs, ds))
  }

  /** The getters: `IsInitialized` is constantly true, `IsFailed` constantly false, `Frames` never throws. */
  function ViewOf(s: SimpleBitmap): (v: View)
    ensures v.isInitialized && !v.isFailed
    ensures v.frames == Success(s.frames) && v.delays == s.delays
    ensures Valid(s) ==> Honours(v)
  {
    View(true, false, s.size, s.frameCount, Success(s.frames), s.delays)
  }

  datatype Run = Run(after: SimpleBitmap, events: seq<Event>)

  /** `InitAsync`: a completed task; the token is never consulted and no event fires. */
  function InitAsync(s: SimpleBitmap, token: Token): (r: Run)
    ensures ViewOf(r.after) == ViewOf(s)
    ensures r.events == []
  {
    Run(s, [])
  }

  /**
   The delays are copied as given: a non-positive delay reaches `Delays`
   unchanged, so this implementation alone does not promise positive delays.
   */
  lemma DelaysNotNormalised(b: Bitmap, d: int)
    ensures New(Some([b]), Some([d])).Success?
    ensures ViewOf(New(Some([b]), Some([d])).value).delays == [d]
  {
  }
}
