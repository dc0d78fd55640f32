/**
 * `fade_in`: the picture is presented once per alpha of `range(0, 256, step)`, with
 * `step = int(255 / (duration * fps))`, and its alpha is then cleared back to opaque.
 * Filling, blitting, flipping and the 30 fps clock are pygame's and are left out; each
 * presented frame is recorded by its alpha.
 */
module Fade {
  import opened Wrappers
  import opened Arith
  import opened ImageLoad

  /** The `fps` default of `fade_in`; the main loop never passes another. */
  const FramesPerSecond: int := 30

  /** Python's `int(x)` on a float: truncation toward zero. */
  function Truncate(x: real): (n: int)
    ensures 0.0 <= x ==> n as real <= x < n as real + 1.0
    ensures x < 0.0 ==> n as real - 1.0 < x <= n as real
  {
    if x >= 0.0 then x.Floor else -((-x).Floor)
  }

  /**
   * `int(255 / (duration * fps))`; `None` stands for the ZeroDivisionError of a zero product.
   * Otherwise the step is `255 / (duration * fps)` truncated toward zero, for either sign of
   * the product.
   */
  function FadeStep(duration: real, fps: int): (step: Option<int>)
    ensures step.None? <==> duration * fps as real == 0.0
    ensures step.Some? && duration * fps as real > 0.0 ==>
              var q := 255.0 / (duration * fps as real);
              0 <= step.value && step.value as real <= q < step.value as real + 1.0
    ensures step.Some? && duration * fps as real < 0.0 ==>
              var q := 255.0 / (duration * fps as real);
              step.value <= 0 && step.value as real - 1.0 < q <= step.value as real
  {
    var p := duration * fps as real;
    if p == 0.0 then None else Some(Truncate(255.0 / p))
  }

  /**
   * `list(range(0, 256, step))`: `None` for the ValueError a zero step raises, nothing for a
   * negative step, and otherwise every multiple of `step` up to 255.
   */
  function AlphaSchedule(step: int): (r: Option<seq<int>>)
    ensures r.None? <==> step == 0
    ensures step < 0 ==> r == Some([])
  {
    if step == 0 then None
    else if step < 0 then Some([])
    else Some(seq(255 / step + 1, k => k * step))
  }

  /** A loop that stopped at the first multiple of `step` above 255 ran `255 / step + 1` times. */
  lemma RangeLength(n: int, step: int)
    requires step > 0 && n >= 1
    requires (n - 1) * step <= 255 < n * step
    ensures n == 255 / step + 1
  {
    assert n * step == (n - 1) * step + step;
    DivUnique(255, step, n - 1, 255 - (n - 1) * step);
  }

  /** The alphas of a positive step start at 0, rise by `step` and stay within 0..255. */
  lemma AlphaScheduleShape(step: int)
    requires step > 0
    ensures var a := AlphaSchedule(step).value;
            && |a| == 255 / step + 1
            && a[0] == 0
            && (forall k :: 0 <= k < |a| ==> 0 <= a[k] <= 255)
            && (forall k :: 0 < k < |a| ==> a[k] == a[k - 1] + step)
            && (forall i, j :: 0 <= i < j < |a| ==> a[i] < a[j])
  {
    var a := AlphaSchedule(step).value;
    forall k | 0 <= k < |a|
      ensures 0 <= a[k] <= 255
    {
      MultipleInRange(k, step);
    }
    forall k | 0 < k < |a|
      ensures a[k] == a[k - 1] + step
    {
      NextMultiple(k - 1, step);
    }
    forall i, j | 0 <= i < j < |a|
      ensures a[i] < a[j]
    {
      NextMultiple(i, step);
      MulMono(i + 1, j, step);
    }
  }

  lemma MultipleInRange(k: int, step: int)
    requires step > 0 && 0 <= k <= 255 / step
    ensures 0 <= k * step <= 255
  {
    var q := 255 / step;
    assert 255 == q * step + 255 % step;
    MulMono(k, q, step);
    MulMono(0, k, step);
  }

  lemma NextMultiple(k: int, step: int)
    ensures (k + 1) * step == k * step + step
  {
  }

  /** The last alpha is the largest multiple of `step` not above 255, so 255 only when `step` divides 255. */
  lemma AlphaScheduleEnd(step: int)
    requires step > 0
    ensures var a := AlphaSchedule(step).value;
            && 255 - step < a[|a| - 1] <= 255
            && (a[|a| - 1] == 255 <==> 255 % step == 0)
  {
    var a := AlphaSchedule(step).value;
    var q := 255 / step;
    assert a[|a| - 1] == q * step;
    assert 255 == q * step + 255 % step;
  }

  /** With the configured default of one second the step is 8: 32 frames, the last at alpha 248. */
  lemma DefaultFade()
    ensures FadeStep(1.0, FramesPerSecond) == Some(8)
    ensures var a := AlphaSchedule(8).value; |a| == 32 && a[31] == 248
  {
    assert 255.0 / 30.0 == 8.5;
  }

  /** A fade longer than 8.5 seconds gives step 0, and `range` raises instead of fading. */
  lemma LongFadeRaises(duration: real)
    requires duration * FramesPerSecond as real > 255.0
    ensures FadeStep(duration, FramesPerSecond) == Some(0)
    ensures AlphaSchedule(0).None?
  {
    var p := duration * FramesPerSecond as real;
    assert 0.0 < 255.0 / p < 1.0 by {
      assert (255.0 / p) * p == 255.0;
    }
  }

  /** A negative duration gives a negative step, for which `range` is empty and nothing fades in. */
  lemma NegativeFadeIsEmpty()
    ensures FadeStep(-1.0, FramesPerSecond) == Some(-8)
    ensures AlphaSchedule(-8) == Some([])
  {
    assert 255.0 / (-1.0 * 30.0) == -8.5;
  }

  /**
   * `fade_in(image, duration)` with `step` precomputed: presents one frame per scheduled alpha
   * and leaves the picture opaque. On a zero step it raises before touching the picture.
   */
  method FadeIn(image: Surface, step: int) returns (frames: Option<seq<int>>)
    modifies image
    ensures frames == AlphaSchedule(step)
    ensures frames.Some? ==> image.alpha == None
    ensures frames.None? ==> image.alpha == old(image.alpha)
  {
    if step == 0 {
      return None;
    }
    var shown: seq<int> := [];
    if step > 0 {
      var alpha := 0;
      while alpha < 256
        invariant alpha == |shown| * step
        invariant forall k :: 0 <= k < |shown| ==> shown[k] == k * step
        invariant |shown| == 0 || (|shown| - 1) * step <= 255
        decreases 256 - alpha
      {
        image.alpha := Some(alpha);
        shown := shown + [alpha];
        alpha := alpha + step;
      }
      RangeLength(|shown|, step);
      assert shown == seq(255 / step + 1, k => k * step);
    }
    image.alpha := None;
    frames := Some(shown);
  }
}
