/**
 * The diverging colour scale of Fig5_heatmap.py: `interpolate` and `z_to_color`.
 *
 * Values are clamped into [Z_MIN, Z_MAX], turned into a ratio in [0, 1], and
 * blended from the low anchor to the mid anchor (ratio below one half) or from the
 * mid anchor to the high anchor. Python floats are modelled as `real`; `int()` on a
 * float truncates toward zero.
 */
module ColorScale {
  import opened HexColor

  const Z_MIN: int := -2
  const Z_MAX: int := 2

  /** Python's `int(x)` for a float: rounds toward zero. */
  function Trunc(x: real): (n: int)
    ensures x >= 0.0 ==> n as real <= x < n as real + 1.0
    ensures x < 0.0 ==> n as real - 1.0 < x <= n as real
  {
    if x >= 0.0 then x.Floor else -((-x).Floor)
  }

  lemma TruncMonotone(x: real, y: real)
    requires x <= y
    ensures Trunc(x) <= Trunc(y)
  {
  }

  lemma TruncOfInt(n: int)
    ensures Trunc(n as real) == n
  {
  }

  /** One channel of `interpolate`: `int(a + (b - a) * t)`, the blended value truncated toward zero. */
  function Blend(a: int, b: int, t: real): (n: int)
    ensures Mix(a, b, t) >= 0.0 ==> n as real <= Mix(a, b, t) < n as real + 1.0
    ensures Mix(a, b, t) < 0.0 ==> n as real - 1.0 < Mix(a, b, t) <= n as real
  {
    Trunc(Mix(a, b, t))
  }

  /** t = 0 gives the first end exactly and t = 1 the second. */
  lemma BlendEnds(a: int, b: int)
    ensures Blend(a, b, 0.0) == a && Blend(a, b, 1.0) == b
  {
    assert Mix(a, b, 0.0) == a as real && Mix(a, b, 1.0) == b as real;
    TruncOfInt(a);
    TruncOfInt(b);
  }

  /** The real value that `interpolate` truncates: `a + (b - a) * t`, the weighted mean of the ends. */
  function Mix(a: int, b: int, t: real): (m: real)
    ensures m == (1.0 - t) * a as real + t * b as real
  {
    a as real + (b - a) as real * t
  }

  /** For t in [0, 1] the mixed value lies between the two ends. */
  lemma MixBetween(a: int, b: int, t: real)
    requires 0.0 <= t <= 1.0
    ensures a <= b ==> a as real <= Mix(a, b, t) <= b as real
    ensures b <= a ==> b as real <= Mix(a, b, t) <= a as real
  {
    var d := (b - a) as real;
    assert d * t - d * 0.0 == d * (t - 0.0);
    assert d * 1.0 - d * t == d * (1.0 - t);
  }

  /** The mixed value moves monotonically from `a` toward `b` as t grows. */
  lemma MixMonotone(a: int, b: int, t1: real, t2: real)
    requires t1 <= t2
    ensures a <= b ==> Mix(a, b, t1) <= Mix(a, b, t2)
    ensures b <= a ==> Mix(a, b, t2) <= Mix(a, b, t1)
  {
    var d := (b - a) as real;
    assert d * t2 - d * t1 == d * (t2 - t1);
  }

  /** Truncating a value between two integers stays between them. */
  lemma TruncBetween(lo: int, x: real, hi: int)
    requires lo as real <= x <= hi as real
    ensures lo <= Trunc(x) <= hi
  {
    TruncMonotone(lo as real, x);
    TruncMonotone(x, hi as real);
    TruncOfInt(lo);
    TruncOfInt(hi);
  }

  /** For t in [0, 1] a blended channel lies between its two ends. */
  lemma BlendBetween(a: int, b: int, t: real)
    requires 0.0 <= t <= 1.0
    ensures a <= b ==> a <= Blend(a, b, t) <= b
    ensures b <= a ==> b <= Blend(a, b, t) <= a
  {
    MixBetween(a, b, t);
    if a <= b {
      TruncBetween(a, Mix(a, b, t), b);
    } else {
      TruncBetween(b, Mix(a, b, t), a);
    }
  }

  /** A blended channel moves monotonically from `a` toward `b` as t grows. */
  lemma BlendMonotone(a: int, b: int, t1: real, t2: real)
    requires t1 <= t2
    ensures a <= b ==> Blend(a, b, t1) <= Blend(a, b, t2)
    ensures b <= a ==> Blend(a, b, t2) <= Blend(a, b, t1)
  {
    MixMonotone(a, b, t1, t2);
    if a <= b {
      TruncMonotone(Mix(a, b, t1), Mix(a, b, t2));
    } else {
      TruncMonotone(Mix(a, b, t2), Mix(a, b, t1));
    }
  }

  /** `interpolate(c1, c2, t)`: each channel blended on its own. */
  function Interpolate(c1: Rgb, c2: Rgb, t: real): (c: Rgb)
    ensures forall i | 0 <= i < 3 :: c.Channel(i) == Blend(c1.Channel(i), c2.Channel(i), t)
    ensures t == 0.0 ==> c == c1
    ensures t == 1.0 ==> c == c2
  {
    Rgb(Blend(c1.r, c2.r, t), Blend(c1.g, c2.g, t), Blend(c1.b, c2.b, t))
  }

  /** For t in [0, 1] every channel of the blend lies between the two colours' channels. */
  lemma InterpolateBetween(c1: Rgb, c2: Rgb, t: real)
    requires 0.0 <= t <= 1.0
    ensures forall i | 0 <= i < 3 ::
      var v := Interpolate(c1, c2, t).Channel(i);
      (c1.Channel(i) <= c2.Channel(i) ==> c1.Channel(i) <= v <= c2.Channel(i)) &&
      (c2.Channel(i) <= c1.Channel(i) ==> c2.Channel(i) <= v <= c1.Channel(i))
    ensures c1.InByteRange() && c2.InByteRange() ==> Interpolate(c1, c2, t).InByteRange()
  {
    BlendBetween(c1.r, c2.r, t);
    BlendBetween(c1.g, c2.g, t);
    BlendBetween(c1.b, c2.b, t);
  }

  /** `max(Z_MIN, min(Z_MAX, z))`. */
  function Clamp(z: real): (c: real)
    ensures Z_MIN as real <= c <= Z_MAX as real
    ensures Z_MIN as real <= z <= Z_MAX as real ==> c == z
    ensures z < Z_MIN as real ==> c == Z_MIN as real
    ensures z > Z_MAX as real ==> c == Z_MAX as real
  {
    var upper := if Z_MAX as real <= z then Z_MAX as real else z;
    if upper <= Z_MIN as real then Z_MIN as real else upper
  }

  /** `ratio = (z - Z_MIN) / (Z_MAX - Z_MIN)` after clamping. */
  function Ratio(z: real): (ratio: real)
    ensures 0.0 <= ratio <= 1.0
    ensures z <= Z_MIN as real ==> ratio == 0.0
    ensures z >= Z_MAX as real ==> ratio == 1.0
    ensures Z_MIN as real <= z <= Z_MAX as real ==> (Z_MAX - Z_MIN) as real * ratio == z - Z_MIN as real
  {
    (Clamp(z) - Z_MIN as real) / (Z_MAX - Z_MIN) as real
  }

  /** `z_to_color`. */
  function ZToColor(z: real): (c: Rgb)
    ensures z <= Z_MIN as real ==> c == LOW_COLOR
    ensures z >= Z_MAX as real ==> c == HIGH_COLOR
    ensures z == 0.0 ==> c == MID_COLOR
    ensures c.InByteRange()
  {
    var ratio := Ratio(z);
    AnchorsInRange();
    if ratio < 0.5 then
      InterpolateBetween(LOW_COLOR, MID_COLOR, ratio * 2.0);
      Interpolate(LOW_COLOR, MID_COLOR, ratio * 2.0)
    else
      InterpolateBetween(MID_COLOR, HIGH_COLOR, (ratio - 0.5) * 2.0);
      Interpolate(MID_COLOR, HIGH_COLOR, (ratio - 0.5) * 2.0)
  }

  lemma AnchorsInRange()
    ensures LOW_COLOR.InByteRange() && MID_COLOR.InByteRange() && HIGH_COLOR.InByteRange()
  {
  }

  /** Values outside the domain take the colour of the nearer domain bound. */
  lemma ClampedColor(z: real)
    ensures z < Z_MIN as real ==> ZToColor(z) == ZToColor(Z_MIN as real)
    ensures z > Z_MAX as real ==> ZToColor(z) == ZToColor(Z_MAX as real)
    ensures ZToColor(z) == ZToColor(Clamp(z))
  {
  }

  /** The three anchors are reached exactly at Z_MIN, the midpoint and Z_MAX. */
  lemma AnchorPoints()
    ensures ZToColor(Z_MIN as real) == LOW_COLOR
    ensures ZToColor(((Z_MIN + Z_MAX) as real) / 2.0) == MID_COLOR
    ensures ZToColor(Z_MAX as real) == HIGH_COLOR
  {
  }

  /** On the lower half of the domain (and below it) the scale blends LOW into MID. */
  lemma LowerHalf(z: real)
    requires z <= 0.0
    ensures ZToColor(z) == Interpolate(LOW_COLOR, MID_COLOR, Ratio(z) * 2.0)
  {
    if Ratio(z) >= 0.5 {
      assert z == 0.0;
    }
  }

  /** On the upper half of the domain (and above it) the scale blends MID into HIGH. */
  lemma UpperHalf(z: real)
    requires z >= 0.0
    ensures ZToColor(z) == Interpolate(MID_COLOR, HIGH_COLOR, (Ratio(z) - 0.5) * 2.0)
  {
  }

  lemma RatioMonotone(z1: real, z2: real)
    requires z1 <= z2
    ensures Ratio(z1) <= Ratio(z2)
  {
  }

  /**
   * For z1 <= z2 <= 0 every channel moves from LOW toward MID: red and green do not
   * fall, blue does not rise.
   */
  lemma MonotoneLowerHalf(z1: real, z2: real)
    requires z1 <= z2 <= 0.0
    ensures forall i | 0 <= i < 3 ::
      (LOW_COLOR.Channel(i) <= MID_COLOR.Channel(i) ==> ZToColor(z1).Channel(i) <= ZToColor(z2).Channel(i)) &&
      (MID_COLOR.Channel(i) <= LOW_COLOR.Channel(i) ==> ZToColor(z2).Channel(i) <= ZToColor(z1).Channel(i))
    ensures ZToColor(z1).r <= ZToColor(z2).r && ZToColor(z1).g <= ZToColor(z2).g && ZToColor(z2).b <= ZToColor(z1).b
  {
    LowerHalf(z1);
    LowerHalf(z2);
    RatioMonotone(z1, z2);
    var t1, t2 := Ratio(z1) * 2.0, Ratio(z2) * 2.0;
    BlendMonotone(LOW_COLOR.r, MID_COLOR.r, t1, t2);
    BlendMonotone(LOW_COLOR.g, MID_COLOR.g, t1, t2);
    BlendMonotone(LOW_COLOR.b, MID_COLOR.b, t1, t2);
  }

  /**
   * For 0 <= z1 <= z2 every channel moves from MID toward HIGH: red does not fall,
   * green and blue do not rise.
   */
  lemma MonotoneUpperHalf(z1: real, z2: real)
    requires 0.0 <= z1 <= z2
    ensures forall i | 0 <= i < 3 ::
      (MID_COLOR.Channel(i) <= HIGH_COLOR.Channel(i) ==> ZToColor(z1).Channel(i) <= ZToColor(z2).Channel(i)) &&
      (HIGH_COLOR.Channel(i) <= MID_COLOR.Channel(i) ==> ZToColor(z2).Channel(i) <= ZToColor(z1).Channel(i))
    ensures ZToColor(z1).r <= ZToColor(z2).r && ZToColor(z2).g <= ZToColor(z1).g && ZToColor(z2).b <= ZToColor(z1).b
  {
    UpperHalf(z1);
    UpperHalf(z2);
    RatioMonotone(z1, z2);
    var t1, t2 := (Ratio(z1) - 0.5) * 2.0, (Ratio(z2) - 0.5) * 2.0;
    BlendMonotone(MID_COLOR.r, HIGH_COLOR.r, t1, t2);
    BlendMonotone(MID_COLOR.g, HIGH_COLOR.g, t1, t2);
    BlendMonotone(MID_COLOR.b, HIGH_COLOR.b, t1, t2);
  }
}
