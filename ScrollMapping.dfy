/** From smoothed scroll progress to the frame to draw: the progress in [0, 1] is
    mapped linearly onto the frame position range [1, TotalFrames], and the
    position is floored to a 1-based frame index. */
module ScrollMapping {
  import opened FrameAssets

  /** `useTransform(smoothProgress, [0, 1], [1, TOTAL_FRAMES])`. */
  function FramePosition(p: real): (x: real)
    requires 0.0 <= p <= 1.0
    ensures 1.0 <= x <= TotalFrames as real
  {
    1.0 + (TotalFrames - 1) as real * p
  }

  /** `Math.floor(latest)` of the frame position: a 1-based index into the frame sequence. */
  function FrameIndex(p: real): (k: int)
    requires 0.0 <= p <= 1.0
    ensures 1 <= k <= TotalFrames
    ensures k as real <= FramePosition(p) < k as real + 1.0
  {
    FramePosition(p).Floor
  }

  /** The top of the scroll region shows frame 1 and the bottom shows the last frame. */
  lemma FrameIndexEnds()
    ensures FrameIndex(0.0) == 1
    ensures FrameIndex(1.0) == TotalFrames
  {
  }

  /** Only the very bottom of the scroll region shows the last frame. */
  lemma FrameIndexLastOnlyAtEnd(p: real)
    requires 0.0 <= p <= 1.0
    ensures FrameIndex(p) == TotalFrames <==> p == 1.0
  {
    if p < 1.0 {
      assert FramePosition(p) < TotalFrames as real;
    }
  }

  /** Scrolling further down never shows an earlier frame. */
  lemma FrameIndexMonotone(p: real, q: real)
    requires 0.0 <= p <= q <= 1.0
    ensures FrameIndex(p) <= FrameIndex(q)
  {
    assert FramePosition(p) <= FramePosition(q);
  }

  /** Every frame is shown at some scroll position: frame `k` at progress `(k - 1) / 39`. */
  lemma FrameIndexReachesEvery(k: int)
    requires 1 <= k <= TotalFrames
    ensures FrameIndex((k - 1) as real / (TotalFrames - 1) as real) == k
  {
    var p := (k - 1) as real / (TotalFrames - 1) as real;
    assert (TotalFrames - 1) as real * p == (k - 1) as real;
  }
}
