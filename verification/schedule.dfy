/** The sampling schedule of `CreateAnimation`: how many frames a clip is
    baked into, and the normalised clip time of each frame. Float arithmetic
    is modelled exactly, with reals. */
module Schedule {

  datatype Option<T> = None | Some(value: T)

  /** C#'s `(int)` cast of a float: truncation toward zero. */
  function Truncate(x: real): (n: int)
    ensures 0.0 <= x ==> 0 <= n && n as real <= x < n as real + 1.0
    ensures x < 0.0 ==> n <= 0 && n as real - 1.0 < x <= n as real
  {
    if x >= 0.0 then x.Floor else -((-x).Floor)
  }

  /** `(int)(animationClip.length * animationClip.frameRate)`; there is no
      clamp to one frame, so a zero-length clip gets no frames. A clip of
      non-negative length and rate gets the number of whole frames in it; a
      negative product truncates toward zero, not down. */
  function FrameCount(length: real, frameRate: real): (n: int)
    ensures 0.0 <= length * frameRate ==> 0 <= n && n as real <= length * frameRate < n as real + 1.0
    ensures length * frameRate < 0.0 ==> n <= 0 && n as real - 1.0 < length * frameRate <= n as real
  {
    Truncate(length * frameRate)
  }

  /** `Enumerable.Range(0, frameCount)` mapped to `f / (float)frameCount`.
      `Range` throws for a negative count, which is the `None` case. */
  function FrameTimes(frameCount: int): (r: Option<seq<real>>)
    ensures r.None? <==> frameCount < 0
    ensures r.Some? ==> |r.value| == frameCount
    ensures r.Some? ==> forall f | 0 <= f < frameCount :: r.value[f] * frameCount as real == f as real
  {
    if frameCount < 0 then None
    else Some(seq(frameCount, f requires 0 <= f < frameCount => f as real / frameCount as real))
  }

  /** A zero-length clip is baked into no frames at all. */
  lemma ZeroLengthClipHasNoFrames(frameRate: real)
    ensures FrameCount(0.0, frameRate) == 0
    ensures FrameTimes(FrameCount(0.0, frameRate)) == Some([])
  {
  }

  lemma DivideMonotone(i: int, j: int, n: int)
    requires 0 <= i < j && 0 < n
    ensures (i as real) / (n as real) < (j as real) / (n as real)
  {
    var a := (i as real) / (n as real);
    var b := (j as real) / (n as real);
    assert a * (n as real) == i as real;
    assert b * (n as real) == j as real;
    if b <= a {
      assert b * (n as real) <= a * (n as real);
    }
  }

  /** Frame times strictly increase. */
  lemma FrameTimesIncreasing(frameCount: int, i: int, j: int)
    requires 0 <= i < j < frameCount
    ensures FrameTimes(frameCount).value[i] < FrameTimes(frameCount).value[j]
  {
    DivideMonotone(i, j, frameCount);
  }

  /** Frame times start at 0 and stay inside [0, 1). */
  lemma FrameTimesInUnitInterval(frameCount: int, f: int)
    requires 0 <= f < frameCount
    ensures FrameTimes(frameCount).value[0] == 0.0
    ensures 0.0 <= FrameTimes(frameCount).value[f] < 1.0
  {
    DivideMonotone(f, frameCount, frameCount);
    if f > 0 {
      DivideMonotone(0, f, frameCount);
    }
  }
}
