/** `adjustBrightness`: shifts every channel by a percentage of full scale. */
module Brightness {
  import opened Colors
  import opened Clamping

  /** A percentage the adjustment accepts: [-100, 100]. */
  predicate IsPercentage(percentage: real) {
    -100.0 <= percentage <= 100.0
  }

  predicate InChannelRange(x: real) {
    0.0 <= x <= 255.0
  }

  /**
   * The channel `c` moved by `percentage` % of 255 and clamped: the moved
   * value where it is in [0, 255], and the nearer end of the range where not.
   */
  function Shift(c: real, percentage: real): (v: real)
    ensures InChannelRange(v)
    ensures InChannelRange(c + percentage * 2.55) ==> v == c + percentage * 2.55
    ensures c + percentage * 2.55 < 0.0 ==> v == 0.0
    ensures c + percentage * 2.55 > 255.0 ==> v == 255.0
  {
    Clamp(c + (percentage / 100.0) * 255.0, 0.0, 255.0)
  }

  /**
   * `adjustBrightness(color, percentage)`: rejected with ValueOutOfRange
   * exactly when the percentage is outside [-100, 100]; otherwise each
   * channel is `clamp(c + percentage * 2.55, 0, 255)`, not rounded.
   */
  function AdjustBrightness(color: RealRgb, percentage: real): (res: Result<RealRgb>)
    ensures res.Failure? <==> !IsPercentage(percentage)
    ensures res.Failure? ==> res.error.ValueOutOfRange?
    ensures res.Success? ==>
      && res.value.r == Clamp(color.r + percentage * 2.55, 0.0, 255.0)
      && res.value.g == Clamp(color.g + percentage * 2.55, 0.0, 255.0)
      && res.value.b == Clamp(color.b + percentage * 2.55, 0.0, 255.0)
    ensures res.Success? ==>
      InChannelRange(res.value.r) && InChannelRange(res.value.g) && InChannelRange(res.value.b)
  {
    if percentage < -100.0 || percentage > 100.0 then
      Failure(ValueOutOfRange("Percentage value out of range"))
    else
      Success(RealRgb(Shift(color.r, percentage), Shift(color.g, percentage), Shift(color.b, percentage)))
  }

  /** A zero adjustment leaves a colour with channels in [0, 255] unchanged. */
  lemma AdjustBrightnessZero(color: RealRgb)
    requires InChannelRange(color.r) && InChannelRange(color.g) && InChannelRange(color.b)
    ensures AdjustBrightness(color, 0.0) == Success(color)
  {
  }

  /** A larger percentage never gives a darker channel. */
  lemma AdjustBrightnessMonotone(color: RealRgb, p1: real, p2: real)
    requires IsPercentage(p1) && IsPercentage(p2) && p1 <= p2
    ensures var c1, c2 := AdjustBrightness(color, p1).value, AdjustBrightness(color, p2).value;
      c1.r <= c2.r && c1.g <= c2.g && c1.b <= c2.b
  {
    ClampMonotone(color.r + p1 * 2.55, color.r + p2 * 2.55, 0.0, 255.0);
    ClampMonotone(color.g + p1 * 2.55, color.g + p2 * 2.55, 0.0, 255.0);
    ClampMonotone(color.b + p1 * 2.55, color.b + p2 * 2.55, 0.0, 255.0);
  }

  /** A non-negative percentage never darkens a channel that starts in [0, 255]. */
  lemma AdjustBrightnessBrightens(color: RealRgb, percentage: real)
    requires 0.0 <= percentage <= 100.0
    requires InChannelRange(color.r) && InChannelRange(color.g) && InChannelRange(color.b)
    ensures var c := AdjustBrightness(color, percentage).value;
      color.r <= c.r && color.g <= c.g && color.b <= c.b
  {
    AdjustBrightnessZero(color);
    AdjustBrightnessMonotone(color, 0.0, percentage);
  }

  /** Red brightened by 50% is (255, 127.5, 127.5); darkened by 50% it is (127.5, 0, 0). */
  lemma AdjustBrightnessExamples()
    ensures AdjustBrightness(RealRgb(255.0, 0.0, 0.0), 50.0) == Success(RealRgb(255.0, 127.5, 127.5))
    ensures AdjustBrightness(RealRgb(255.0, 0.0, 0.0), -50.0) == Success(RealRgb(127.5, 0.0, 0.0))
    ensures AdjustBrightness(RealRgb(255.0, 0.0, 0.0), 150.0)
      == Failure(ValueOutOfRange("Percentage value out of range"))
  {
  }
}
