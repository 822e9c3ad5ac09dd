/**
 * RGB <-> HSL conversion. The arithmetic is exact (`real`), so floating-point
 * rounding does not arise; `Math.round` is the one rounding step.
 */
module HslRgb {
  import opened Colors

  /** `Math.max(a, b, c)`. */
  function Max3(a: real, b: real, c: real): (m: real)
    ensures (m == a || m == b || m == c) && a <= m && b <= m && c <= m
  {
    var ab := if a >= b then a else b;
    if ab >= c then ab else c
  }

  /** `Math.min(a, b, c)`. */
  function Min3(a: real, b: real, c: real): (m: real)
    ensures (m == a || m == b || m == c) && m <= a && m <= b && m <= c
  {
    var ab := if a <= b then a else b;
    if ab <= c then ab else c
  }

  /** A channel as a fraction of full intensity: `c / 255`. */
  function Unit(c: int): (u: real)
    ensures u * 255.0 == c as real
    ensures IsByte(c) <==> IsUnit(u)
  {
    c as real / 255.0
  }

  /**
   * The saturation formula of `rgbToHsl` divides by a non-zero number: true
   * whenever the channels are in [0, 1] (see `RgbToHslRange`).
   */
  predicate HslDefined(r: real, g: real, b: real) {
    var mx, mn := Max3(r, g, b), Min3(r, g, b);
    mx == mn || (if (mx + mn) / 2.0 > 0.5 then 2.0 - mx - mn != 0.0 else mx + mn != 0.0)
  }

  /**
   * `rgbToHsl` after the channels are divided by 255. A colour is grey
   * (saturation 0) exactly when its largest and smallest channels agree.
   */
  function UnitToHsl(r: real, g: real, b: real): (c: Hsl)
    requires HslDefined(r, g, b)
    ensures c.s == 0.0 <==> Max3(r, g, b) == Min3(r, g, b)
    ensures c.s == 0.0 ==> c.h == 0.0
  {
    var mx, mn := Max3(r, g, b), Min3(r, g, b);
    var l := (mx + mn) / 2.0;
    if mx == mn then
      Hsl(0.0, 0.0, l) // achromatic
    else
      var d := mx - mn;
      var s := if l > 0.5 then d / (2.0 - mx - mn) else d / (mx + mn);
      // `switch (max)` tries red, then green, then blue
      var h :=
        if mx == r then (g - b) / d + (if g < b then 6.0 else 0.0)
        else if mx == g then (b - r) / d + 2.0
        else (r - g) / d + 4.0;
      Hsl(h / 6.0, s, l)
  }

  /** `rgbToHsl(r, g, b)`. */
  function RgbToHsl(r: int, g: int, b: int): (c: Hsl)
    requires HslDefined(Unit(r), Unit(g), Unit(b))
    ensures c.s == 0.0 <==> Max3(Unit(r), Unit(g), Unit(b)) == Min3(Unit(r), Unit(g), Unit(b))
  {
    UnitToHsl(Unit(r), Unit(g), Unit(b))
  }

  /**
   * The inner `hue2rgb`: wraps `t` once towards [0, 1] and evaluates the
   * piecewise-linear lobe that rises from `p` to `q` and falls back.
   */
  function Hue2Rgb(p: real, q: real, t: real): real
  {
    var t1 := if t < 0.0 then t + 1.0 else t;
    var t2 := if t1 > 1.0 then t1 - 1.0 else t1;
    if t2 < 1.0 / 6.0 then p + (q - p) * 6.0 * t2
    else if t2 < 1.0 / 2.0 then q
    else if t2 < 2.0 / 3.0 then p + (q - p) * (2.0 / 3.0 - t2) * 6.0
    else p
  }

  /** Every value of `hue2rgb` lies between `p` and `q` once `t` is at least -1. */
  lemma Hue2RgbBounds(p: real, q: real, t: real)
    requires p <= q && t >= -1.0
    ensures p <= Hue2Rgb(p, q, t) <= q
  {
    var t1 := if t < 0.0 then t + 1.0 else t;
    var t2 := if t1 > 1.0 then t1 - 1.0 else t1;
    assert 0.0 <= t2;
    if t2 < 1.0 / 6.0 {
      assert Hue2Rgb(p, q, t) == p + (q - p) * 6.0 * t2;
      Rising(p, q, t2);
    } else if t2 < 1.0 / 2.0 {
      assert Hue2Rgb(p, q, t) == q;
    } else if t2 < 2.0 / 3.0 {
      assert Hue2Rgb(p, q, t) == p + (q - p) * (2.0 / 3.0 - t2) * 6.0;
      Falling(p, q, t2);
    } else {
      assert Hue2Rgb(p, q, t) == p;
    }
  }

  /** The rising edge of the lobe stays between `p` and `q`. */
  lemma Rising(p: real, q: real, t: real)
    requires p <= q && 0.0 <= t <= 1.0 / 6.0
    ensures p <= p + (q - p) * 6.0 * t <= q
  {
    var w := (q - p) * 6.0;
    MulMono(w, 0.0, t);
    MulMono(w, t, 1.0 / 6.0);
  }

  /** The falling edge of the lobe stays between `p` and `q`. */
  lemma Falling(p: real, q: real, t: real)
    requires p <= q && 1.0 / 2.0 <= t <= 2.0 / 3.0
    ensures p <= p + (q - p) * (2.0 / 3.0 - t) * 6.0 <= q
  {
    var w := (q - p) * 6.0;
    var u := 2.0 / 3.0 - t;
    MulMono(w, 0.0, u);
    MulMono(w, u, 1.0 / 6.0);
    assert (q - p) * u * 6.0 == w * u;
    assert w * (1.0 / 6.0) == q - p;
    assert 0.0 <= w * u <= q - p;
    assert (q - p) * (2.0 / 3.0 - t) * 6.0 == w * u;
  }

  lemma MulMono(w: real, a: real, b: real)
    requires w >= 0.0 && a <= b
    ensures w * a <= w * b
  {
    MulNonneg(w, b - a);
    assert w * (b - a) == w * b - w * a;
  }

  lemma MulNonneg(a: real, b: real)
    requires a >= 0.0 && b >= 0.0
    ensures a * b >= 0.0
  {
  }

  /**
   * The top of the `hue2rgb` lobe, `q` in `hslToRgb`: it lies between the
   * lightness and full intensity, and equals the lightness for a grey.
   */
  function Upper(s: real, l: real): (q: real)
    ensures s == 0.0 ==> q == l
    ensures IsUnit(s) && IsUnit(l) ==> l <= q <= 1.0
  {
    if l < 0.5 then DarkLobe(s, l); l * (1.0 + s) else LightLobe(s, l); l + s - l * s
  }

  /** For lightness below one half, `q` lies between `l` and `2 l`. */
  lemma DarkLobe(s: real, l: real)
    ensures IsUnit(s) && 0.0 <= l < 0.5 ==> l <= l * (1.0 + s) <= 2.0 * l
  {
    if IsUnit(s) && 0.0 <= l < 0.5 {
      MulMono(l, 0.0, s);
      MulMono(l, s, 1.0);
      assert l * (1.0 + s) == l + l * s;
    }
  }

  /** For lightness of one half or more, `q` lies between `l` and 1. */
  lemma LightLobe(s: real, l: real)
    ensures IsUnit(s) && 0.5 <= l <= 1.0 ==> l <= l + s - l * s <= 1.0
  {
    if IsUnit(s) && 0.5 <= l <= 1.0 {
      var w := 1.0 - l;
      MulMono(w, 0.0, s);
      MulMono(w, s, 1.0);
      assert l + s - l * s == l + w * s;
    }
  }

  /** `hslToRgb` before scaling and rounding: channels as fractions. */
  function HslToUnit(h: real, s: real, l: real): (c: RealRgb)
    ensures s == 0.0 ==> c == RealRgb(l, l, l)
  {
    if s == 0.0 then
      RealRgb(l, l, l) // achromatic
    else
      var q := Upper(s, l);
      var p := 2.0 * l - q;
      RealRgb(Hue2Rgb(p, q, h + 1.0 / 3.0), Hue2Rgb(p, q, h), Hue2Rgb(p, q, h - 1.0 / 3.0))
  }

  /** `Math.round(x)`: the nearest integer, halves rounded up. */
  function Round(x: real): (n: int)
    ensures x - 0.5 < n as real <= x + 0.5
  {
    (x + 0.5).Floor
  }

  /** `hslToRgb(h, s, l)`; zero saturation always gives a grey. */
  function HslToRgb(h: real, s: real, l: real): (c: Rgb)
    ensures s == 0.0 ==> c.r == c.g == c.b
  {
    var u := HslToUnit(h, s, l);
    Rgb(Round(u.r * 255.0), Round(u.g * 255.0), Round(u.b * 255.0))
  }

  /*
   * Properties of `rgbToHsl`.
   */

  /** A quotient of numbers with `|x| <= d` lies in [-1, 1] and has the sign of `x`. */
  lemma DivBounds(x: real, d: real)
    requires d > 0.0 && -d <= x <= d
    ensures -1.0 <= x / d <= 1.0
    ensures x < 0.0 ==> x / d < 0.0
    ensures x >= 0.0 ==> x / d >= 0.0
    ensures x < d ==> x / d < 1.0
  {
    var k := x / d;
    assert k * d == x;
    if k >= 1.0 {
      MulMono(d, 1.0, k);
    }
    if k < -1.0 {
      MulMono(d, k, -1.0);
    }
    if x < 0.0 && k >= 0.0 {
      MulNonneg(d, k);
    }
    if x >= 0.0 && k < 0.0 {
      MulMono(d, k, 0.0);
    }
  }

  /**
   * For channels in [0, 255], `rgbToHsl` is defined and yields a hue in
   * [0, 1), saturation and lightness in [0, 1], and the lightness is the
   * midpoint of the largest and smallest normalised channel.
   */
  lemma RgbToHslRange(r: int, g: int, b: int)
    requires IsByte(r) && IsByte(g) && IsByte(b)
    ensures HslDefined(Unit(r), Unit(g), Unit(b))
    ensures var c := RgbToHsl(r, g, b);
      && 0.0 <= c.h < 1.0 && IsUnit(c.s) && IsUnit(c.l)
      && c.l == (Max3(Unit(r), Unit(g), Unit(b)) + Min3(Unit(r), Unit(g), Unit(b))) / 2.0
  {
    UnitToHslRange(Unit(r), Unit(g), Unit(b));
  }

  lemma UnitToHslRange(r: real, g: real, b: real)
    requires IsUnit(r) && IsUnit(g) && IsUnit(b)
    ensures HslDefined(r, g, b)
    ensures var c := UnitToHsl(r, g, b);
      && 0.0 <= c.h < 1.0 && IsUnit(c.s) && IsUnit(c.l)
      && c.l == (Max3(r, g, b) + Min3(r, g, b)) / 2.0
  {
    var mx, mn := Max3(r, g, b), Min3(r, g, b);
    if mx != mn {
      var d := mx - mn;
      var l := (mx + mn) / 2.0;
      if l > 0.5 {
        DivBounds(d, 2.0 - mx - mn);
      } else {
        DivBounds(d, mx + mn);
      }
      if mx == r {
        DivBounds(g - b, d);
      } else if mx == g {
        DivBounds(b - r, d);
      } else {
        DivBounds(r - g, d);
      }
    }
  }

  /** A grey input has hue and saturation 0 and lightness `r / 255`. */
  lemma RgbToHslGrey(v: int)
    ensures HslDefined(Unit(v), Unit(v), Unit(v))
    ensures RgbToHsl(v, v, v) == Hsl(0.0, 0.0, Unit(v))
  {
  }

  /** `rgbToHsl(255, 0, 0)` is hue 0, full saturation, lightness one half. */
  lemma RgbToHslRedExample()
    ensures HslDefined(Unit(255), Unit(0), Unit(0))
    ensures RgbToHsl(255, 0, 0) == Hsl(0.0, 1.0, 0.5)
  {
  }

  /*
   * Properties of `hslToRgb`.
   */

  /** For `s` and `l` in [0, 1]: `0 <= p <= q <= 1`. */
  lemma UpperLowerBounds(s: real, l: real)
    requires IsUnit(s) && IsUnit(l)
    ensures 0.0 <= 2.0 * l - Upper(s, l) <= Upper(s, l) <= 1.0
  {
    if l < 0.5 {
      MulMono(l, 0.0, s);
      MulMono(l, s, 1.0);
    } else {
      var w := 1.0 - l;
      MulMono(w, 0.0, s);
      MulMono(w, s, 1.0);
      assert 0.0 <= w * s <= w;
      assert Upper(s, l) == l + w * s;
      assert l + w * s <= 1.0;
    }
  }

  /** For `h`, `s`, `l` in [0, 1], every channel of `hslToRgb` before scaling is in [0, 1]. */
  lemma HslToUnitRange(h: real, s: real, l: real)
    requires IsUnit(h) && IsUnit(s) && IsUnit(l)
    ensures var c := HslToUnit(h, s, l); IsUnit(c.r) && IsUnit(c.g) && IsUnit(c.b)
  {
    if s != 0.0 {
      var q := Upper(s, l);
      var p := 2.0 * l - q;
      UpperLowerBounds(s, l);
      Hue2RgbBounds(p, q, h + 1.0 / 3.0);
      Hue2RgbBounds(p, q, h);
      Hue2RgbBounds(p, q, h - 1.0 / 3.0);
    }
  }

  /** Scaling a fraction in [0, 1] by 255 and rounding gives a byte. */
  lemma RoundByte(x: real)
    requires IsUnit(x)
    ensures IsByte(Round(x * 255.0))
  {
    MulMono(255.0, x, 1.0);
    MulMono(255.0, 0.0, x);
  }

  /** For `h`, `s`, `l` in [0, 1], `hslToRgb` yields channels in [0, 255]. */
  lemma HslToRgbRange(h: real, s: real, l: real)
    requires IsUnit(h) && IsUnit(s) && IsUnit(l)
    ensures var c := HslToRgb(h, s, l); IsByte(c.r) && IsByte(c.g) && IsByte(c.b)
  {
    HslToUnitRange(h, s, l);
    var u := HslToUnit(h, s, l);
    RoundByte(u.r);
    RoundByte(u.g);
    RoundByte(u.b);
  }

  /** Zero saturation gives a grey: every channel is `round(255 * l)`, whatever the hue. */
  lemma HslToRgbGrey(h: real, l: real)
    ensures var n := Round(l * 255.0); HslToRgb(h, 0.0, l) == Rgb(n, n, n)
  {
  }

  /** `hslToRgb(0, 1, 0.5)` is pure red. */
  lemma HslToRgbRedExample()
    ensures HslToRgb(0.0, 1.0, 0.5) == Rgb(255, 0, 0)
  {
  }

  /*
   * In exact arithmetic `hslToRgb` undoes `rgbToHsl`.
   */

  /**
   * The saturation `rgbToHsl` gives a non-grey colour is positive, and from it
   * and the lightness `hslToRgb` recovers `q` as the largest channel and `p`
   * as the smallest.
   */
  lemma UpperOfSaturation(mx: real, mn: real)
    requires 0.0 <= mn < mx <= 1.0
    ensures var l := (mx + mn) / 2.0;
      var d := mx - mn;
      var s := if l > 0.5 then d / (2.0 - mx - mn) else d / (mx + mn);
      s > 0.0 && Upper(s, l) == mx && 2.0 * l - Upper(s, l) == mn
  {
    if (mx + mn) / 2.0 > 0.5 {
      LightSaturation(mx, mn);
    } else {
      DarkSaturation(mx, mn);
    }
  }

  /** `UpperOfSaturation` for lightness above one half. */
  lemma LightSaturation(mx: real, mn: real)
    requires 0.0 <= mn < mx <= 1.0 && (mx + mn) / 2.0 > 0.5
    ensures var l := (mx + mn) / 2.0;
      var s := (mx - mn) / (2.0 - mx - mn);
      s > 0.0 && Upper(s, l) == l + (mx - mn) / 2.0
  {
    var l := (mx + mn) / 2.0;
    var d := mx - mn;
    var e := 2.0 - mx - mn;
    var s := d / e;
    assert s * e == d;
    DivBounds(d, e);
    assert l * s + s * e / 2.0 == s;
  }

  /** `UpperOfSaturation` for lightness up to one half. */
  lemma DarkSaturation(mx: real, mn: real)
    requires 0.0 <= mn < mx <= 1.0 && (mx + mn) / 2.0 <= 0.5
    ensures var l := (mx + mn) / 2.0;
      var s := (mx - mn) / (mx + mn);
      s > 0.0 && Upper(s, l) == l + (mx - mn) / 2.0
  {
    var l := (mx + mn) / 2.0;
    var d := mx - mn;
    var e := mx + mn;
    var s := d / e;
    assert s * e == d;
    DivBounds(d, e);
    if l < 0.5 {
      assert l * s == s * e / 2.0;
    } else {
      assert e == 1.0 && s == d;
    }
  }

  /** Red is the largest channel: the three `hue2rgb` calls give back the channels. */
  lemma RedSector(r: real, g: real, b: real, mn: real, h: real)
    requires mn == Min3(r, g, b) && r == Max3(r, g, b) && r > mn
    requires h == ((g - b) / (r - mn) + (if g < b then 6.0 else 0.0)) / 6.0
    ensures Hue2Rgb(mn, r, h + 1.0 / 3.0) == r
    ensures Hue2Rgb(mn, r, h) == g
    ensures Hue2Rgb(mn, r, h - 1.0 / 3.0) == b
  {
    var d := r - mn;
    var k := (g - b) / d;
    assert k * d == g - b;
    DivBounds(g - b, d);
    if g >= b {
      assert mn == b;
      assert (r - mn) * 6.0 * h == d * k;
      if h + 1.0 / 3.0 == 1.0 / 2.0 {
        assert (r - mn) * (2.0 / 3.0 - (h + 1.0 / 3.0)) * 6.0 == d;
      }
    } else {
      assert mn == g;
      assert (r - mn) * (2.0 / 3.0 - (h - 1.0 / 3.0)) * 6.0 == -(d * k);
    }
  }

  /** Green is the largest channel and red is not. */
  lemma GreenSector(r: real, g: real, b: real, mn: real, h: real)
    requires mn == Min3(r, g, b) && g == Max3(r, g, b) && r != g && g > mn
    requires h == ((b - r) / (g - mn) + 2.0) / 6.0
    ensures Hue2Rgb(mn, g, h + 1.0 / 3.0) == r
    ensures Hue2Rgb(mn, g, h) == g
    ensures Hue2Rgb(mn, g, h - 1.0 / 3.0) == b
  {
    var d := g - mn;
    var k := (b - r) / d;
    assert k * d == b - r;
    DivBounds(b - r, d);
    if b < r {
      assert mn == b;
      assert (g - mn) * (2.0 / 3.0 - (h + 1.0 / 3.0)) * 6.0 == -(d * k);
    } else {
      assert mn == r;
      assert (g - mn) * 6.0 * (h - 1.0 / 3.0) == d * k;
      if h == 1.0 / 2.0 {
        assert (g - mn) * (2.0 / 3.0 - h) * 6.0 == d;
      }
    }
  }

  /** Blue is the largest channel and neither red nor green is. */
  lemma BlueSector(r: real, g: real, b: real, mn: real, h: real)
    requires mn == Min3(r, g, b) && b == Max3(r, g, b) && r != b && g != b && b > mn
    requires h == ((r - g) / (b - mn) + 4.0) / 6.0
    ensures Hue2Rgb(mn, b, h + 1.0 / 3.0) == r
    ensures Hue2Rgb(mn, b, h) == g
    ensures Hue2Rgb(mn, b, h - 1.0 / 3.0) == b
  {
    var d := b - mn;
    var k := (r - g) / d;
    assert k * d == r - g;
    DivBounds(r - g, d);
    if r > g {
      assert mn == g;
      assert (b - mn) * 6.0 * (h + 1.0 / 3.0 - 1.0) == d * k;
    } else {
      assert mn == r;
      assert (b - mn) * (2.0 / 3.0 - h) * 6.0 == -(d * k);
    }
  }

  /** On normalised channels in [0, 1], the HSL -> RGB formulas invert the RGB -> HSL ones exactly. */
  lemma UnitRoundTrip(r: real, g: real, b: real)
    requires IsUnit(r) && IsUnit(g) && IsUnit(b)
    ensures HslDefined(r, g, b)
    ensures var c := UnitToHsl(r, g, b); HslToUnit(c.h, c.s, c.l) == RealRgb(r, g, b)
  {
    UnitToHslRange(r, g, b);
    var mx, mn := Max3(r, g, b), Min3(r, g, b);
    var c := UnitToHsl(r, g, b);
    if mx != mn {
      UpperOfSaturation(mx, mn);
      assert c.s != 0.0;
      assert HslToUnit(c.h, c.s, c.l)
        == RealRgb(Hue2Rgb(mn, mx, c.h + 1.0 / 3.0), Hue2Rgb(mn, mx, c.h), Hue2Rgb(mn, mx, c.h - 1.0 / 3.0));
      if mx == r {
        RedSector(r, g, b, mn, c.h);
      } else if mx == g {
        GreenSector(r, g, b, mn, c.h);
      } else {
        BlueSector(r, g, b, mn, c.h);
      }
    }
  }

  /**
   * For channels in [0, 255], converting to HSL and back gives the same
   * colour: in exact arithmetic the round trip loses nothing.
   */
  lemma HslRoundTrip(r: int, g: int, b: int)
    requires IsByte(r) && IsByte(g) && IsByte(b)
    ensures HslDefined(Unit(r), Unit(g), Unit(b))
    ensures var c := RgbToHsl(r, g, b); HslToRgb(c.h, c.s, c.l) == Rgb(r, g, b)
  {
    UnitRoundTrip(Unit(r), Unit(g), Unit(b));
    assert Unit(r) * 255.0 == r as real && Unit(g) * 255.0 == g as real && Unit(b) * 255.0 == b as real;
  }
}
