/** The animation state the renderer carries from frame to frame: each frame
    zooms in by 10% and allows 10 more iterations; `Reset` restores the
    starting state. */
module Animation {

  datatype AnimationState = AnimationState(zoom: real, maxIterations: int)

  /** The state a fresh renderer starts in and `Reset` restores. */
  const Initial: AnimationState := AnimationState(0.01, 200)

  /** The update at the start of every frame. */
  function Advance(s: AnimationState): AnimationState
  {
    AnimationState(s.zoom * 0.9, s.maxIterations + 10)
  }

  /** The state after `n` frames drawn since a reset. */
  function AfterFrames(n: nat): AnimationState
  {
    if n == 0 then Initial else Advance(AfterFrames(n - 1))
  }

  function Power(b: real, n: nat): real
  {
    if n == 0 then 1.0 else b * Power(b, n - 1)
  }

  /** After `n` frames the zoom is `0.01 * 0.9^n` and the budget `200 + 10 n`. */
  lemma {:induction false} FramesFromReset(n: nat)
    ensures AfterFrames(n) == AnimationState(0.01 * Power(0.9, n), 200 + 10 * n)
  {
    if n > 0 {
      FramesFromReset(n - 1);
      assert 0.01 * Power(0.9, n - 1) * 0.9 == 0.01 * Power(0.9, n);
    }
  }

  lemma {:induction false} PowerBounds(n: nat)
    ensures 0.0 < Power(0.9, n) <= 1.0
  {
    if n > 0 {
      PowerBounds(n - 1);
    }
  }

  /** Every frame zooms strictly further in without the zoom reaching 0, and
      strictly raises the iteration budget. */
  lemma ZoomShrinks(n: nat)
    ensures 0.0 < AfterFrames(n + 1).zoom < AfterFrames(n).zoom <= 0.01
    ensures AfterFrames(n).maxIterations < AfterFrames(n + 1).maxIterations
  {
    FramesFromReset(n);
    FramesFromReset(n + 1);
    PowerBounds(n);
  }
}
