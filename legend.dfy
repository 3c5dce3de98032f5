/**
 * The colour legend of Fig5_heatmap.py: a vertical bar of 100 swatches coloured by
 * `z_to_color` at evenly spaced values from Z_MIN upwards, inside a framed box,
 * with tick labels at Z_MIN, 0 and Z_MAX.
 *
 * The figure computes these positions in floating point; the model uses exact reals.
 */
module Legend {
  import opened HexColor
  import opened ColorScale

  const FIG_WIDTH: real := 1200.0
  const FIG_HEIGHT: real := 1500.0
  const LEGEND_HEIGHT_FRACTION: real := 0.35
  const LEGEND_WIDTH: real := 20.0
  const STEPS: nat := 100

  const LEGEND_HEIGHT: real := FIG_HEIGHT * LEGEND_HEIGHT_FRACTION
  /** The top of the legend frame; the legend is centred vertically. */
  const LEGEND_Y: real := (FIG_HEIGHT - LEGEND_HEIGHT) / 2.0
  const LEGEND_X: real := FIG_WIDTH - 100.0
  const SWATCH_HEIGHT: real := LEGEND_HEIGHT / STEPS as real

  /** The bottom of the legend frame. */
  const LEGEND_BOTTOM: real := LEGEND_Y + LEGEND_HEIGHT

  /** A swatch rectangle: its top edge and its fill. */
  datatype Swatch = Swatch(y: real, color: Rgb)

  /** The value swatch `i` shows: Z_MIN plus `i` hundredths of the range. */
  function StepZ(i: nat): (z: real)
    ensures i <= STEPS ==> Z_MIN as real <= z <= Z_MAX as real
    ensures i < STEPS ==> z < Z_MAX as real
  {
    Z_MIN as real + (i as real / STEPS as real) * (Z_MAX - Z_MIN) as real
  }

  /** Where the tick label of value `v` sits: Z_MIN at the bottom, Z_MAX at the top. */
  function TickY(v: real): (y: real)
    ensures Z_MIN as real <= v <= Z_MAX as real ==> LEGEND_Y <= y <= LEGEND_BOTTOM
    ensures v == Z_MIN as real ==> y == LEGEND_BOTTOM
    ensures v == Z_MAX as real ==> y == LEGEND_Y
  {
    LEGEND_BOTTOM - ((v - Z_MIN as real) / (Z_MAX - Z_MIN) as real) * LEGEND_HEIGHT
  }

  /** The top edge of swatch `i` as the figure computes it: the tick position of the swatch's value. */
  function SwatchTopAsWritten(i: nat): (y: real)
    ensures y == TickY(StepZ(i))
  {
    LEGEND_Y + LEGEND_HEIGHT - (i as real / STEPS as real) * LEGEND_HEIGHT
  }

  /** The top edge of swatch `i` when swatch `i` fills the `i`-th strip from the bottom of the frame. */
  function SwatchTop(i: nat): real
  {
    LEGEND_BOTTOM - ((i + 1) as real / STEPS as real) * LEGEND_HEIGHT
  }

  lemma Geometry()
    ensures LEGEND_HEIGHT == 525.0 && LEGEND_Y == 487.5 && LEGEND_BOTTOM == 1012.5
    ensures SWATCH_HEIGHT == 5.25 && LEGEND_X == 1100.0
  {
  }

  /** The swatch values start at Z_MIN, pass 0 halfway, stay below Z_MAX and increase. */
  lemma StepZIncreasing(i: nat, j: nat)
    requires i < j < STEPS
    ensures StepZ(0) == Z_MIN as real && StepZ(STEPS / 2) == 0.0
    ensures Z_MIN as real <= StepZ(i) < StepZ(j) < Z_MAX as real
  {
  }

  /** The bottom swatch is the low colour and the middle one the mid colour. */
  lemma LegendAnchors()
    ensures ZToColor(StepZ(0)) == LOW_COLOR
    ensures ZToColor(StepZ(STEPS / 2)) == MID_COLOR
  {
    assert StepZ(0) == -2.0 && StepZ(STEPS / 2) == 0.0;
  }

  /** Up the lower half of the legend red and green never fall and blue never rises. */
  lemma LowerLegendGradient(i: nat, j: nat)
    requires i <= j <= STEPS / 2
    ensures ZToColor(StepZ(i)).r <= ZToColor(StepZ(j)).r && ZToColor(StepZ(i)).g <= ZToColor(StepZ(j)).g
    ensures ZToColor(StepZ(j)).b <= ZToColor(StepZ(i)).b
  {
    assert StepZ(i) <= StepZ(j) <= 0.0;
    MonotoneLowerHalf(StepZ(i), StepZ(j));
  }

  /** Up the upper half of the legend red never falls and green and blue never rise. */
  lemma UpperLegendGradient(i: nat, j: nat)
    requires STEPS / 2 <= i <= j < STEPS
    ensures ZToColor(StepZ(i)).r <= ZToColor(StepZ(j)).r && ZToColor(StepZ(j)).g <= ZToColor(StepZ(i)).g
    ensures ZToColor(StepZ(j)).b <= ZToColor(StepZ(i)).b
  {
    assert 0.0 <= StepZ(i) <= StepZ(j);
    MonotoneUpperHalf(StepZ(i), StepZ(j));
  }

  /** The ticks sit at the bottom, the middle and the top of the frame. */
  lemma Ticks()
    ensures TickY(Z_MIN as real) == LEGEND_BOTTOM
    ensures TickY(0.0) == LEGEND_Y + LEGEND_HEIGHT / 2.0
    ensures TickY(Z_MAX as real) == LEGEND_Y
  {
  }

  /**
   * As written, swatch `i`'s top edge is at the tick of its own value, so the bar sits
   * one swatch too low: the bottom swatch hangs below the frame and the top strip of
   * the frame is left empty.
   */
  lemma AsWrittenBarShifted(i: nat)
    requires i < STEPS
    ensures SwatchTopAsWritten(i) == SwatchTop(i) + SWATCH_HEIGHT
    ensures SwatchTopAsWritten(0) + SWATCH_HEIGHT > LEGEND_BOTTOM
    ensures SwatchTopAsWritten(i) >= LEGEND_Y + SWATCH_HEIGHT
  {
  }

  /**
   * With the corrected top edge the swatches tile the frame exactly, bottom to top,
   * and each swatch's bottom edge is the tick position of its value.
   */
  lemma SwatchesTileFrame(i: nat)
    requires i < STEPS
    ensures SwatchTop(i) + SWATCH_HEIGHT == TickY(StepZ(i))
    ensures SwatchTop(0) + SWATCH_HEIGHT == LEGEND_BOTTOM
    ensures SwatchTop(STEPS - 1) == LEGEND_Y
    ensures i + 1 < STEPS ==> SwatchTop(i + 1) + SWATCH_HEIGHT == SwatchTop(i)
    ensures LEGEND_Y <= SwatchTop(i) && SwatchTop(i) + SWATCH_HEIGHT <= LEGEND_BOTTOM
  {
  }

  /**
   * The legend loop: one swatch per step, coloured by the step's value, with its top
   * edge where the figure puts it (one swatch below its strip of the frame; see
   * `AsWrittenBarShifted`).
   */
  method DrawLegend() returns (swatches: seq<Swatch>)
    ensures |swatches| == STEPS
    ensures forall i | 0 <= i < STEPS :: swatches[i] == Swatch(SwatchTopAsWritten(i), ZToColor(StepZ(i)))
  {
    swatches := [];
    for i := 0 to STEPS
      invariant |swatches| == i
      invariant forall k | 0 <= k < i :: swatches[k] == Swatch(SwatchTopAsWritten(k), ZToColor(StepZ(k)))
    {
      var t := i as real / STEPS as real;
      var z := Z_MIN as real + t * (Z_MAX - Z_MIN) as real;
      var y := LEGEND_Y + LEGEND_HEIGHT - (i as real / STEPS as real) * LEGEND_HEIGHT;
      assert y == SwatchTopAsWritten(i);
      assert z == StepZ(i);
      swatches := swatches + [Swatch(y, ZToColor(z))];
    }
  }
}
