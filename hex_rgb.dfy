/**
 * HEX <-> RGB conversion: `hexToRgb` parses `#rrggbb` / `#rgb` (the `#` is
 * optional, digits in either case) and `rgbToHex` prints `#rrggbb` in lower
 * case. Decoding what was encoded gives the channels back; encoding what
 * was decoded gives the canonical form of the input.
 */
module HexRgb {
  import opened Colors

  /** A character of the class `[0-9a-fA-F]`. */
  predicate IsHexDigit(c: char) {
    ('0' <= c <= '9') || ('a' <= c <= 'f') || ('A' <= c <= 'F')
  }

  /** A digit as `Number.prototype.toString(16)` prints it. */
  predicate IsLowerHexDigit(c: char) {
    ('0' <= c <= '9') || ('a' <= c <= 'f')
  }

  predicate AllHexDigits(s: string) {
    forall i :: 0 <= i < |s| ==> IsHexDigit(s[i])
  }

  predicate AllLowerHexDigits(s: string) {
    forall i :: 0 <= i < |s| ==> IsLowerHexDigit(s[i])
  }

  /** The value `parseInt` gives one hex digit. */
  function DigitValue(c: char): (v: nat)
    requires IsHexDigit(c)
    ensures v < 16
  {
    if '0' <= c <= '9' then c as int - '0' as int
    else if 'a' <= c <= 'f' then c as int - 'a' as int + 10
    else c as int - 'A' as int + 10
  }

  /** The lowercase digit for `d`, and the digit that reads back as `d`. */
  function HexDigit(d: nat): (c: char)
    requires d < 16
    ensures IsLowerHexDigit(c) && DigitValue(c) == d
  {
    if d < 10 then ('0' as int + d) as char else ('a' as int + d - 10) as char
  }

  /** A hex digit in lower case (`A`-`F` become `a`-`f`). */
  function LowerDigit(c: char): (l: char)
    requires IsHexDigit(c)
    ensures IsLowerHexDigit(l) && DigitValue(l) == DigitValue(c)
  {
    if 'A' <= c <= 'F' then (c as int - 'A' as int + 'a' as int) as char else c
  }

  function LowerDigits(s: string): (t: string)
    requires AllHexDigits(s)
    ensures |t| == |s| && AllLowerHexDigits(t)
  {
    seq(|s|, i requires 0 <= i < |s| => LowerDigit(s[i]))
  }

  function Pow16(k: nat): (p: nat)
    ensures p >= 1
  {
    if k == 0 then 1 else 16 * Pow16(k - 1)
  }

  /**
   * `parseInt(s, 16)` on a string made only of hex digits: the digits read
   * most significant first. The value fits in `|s|` digits.
   */
  function HexValue(s: string): (v: nat)
    requires AllHexDigits(s)
    ensures v < Pow16(|s|)
  {
    if s == [] then 0 else HexValue(s[..|s| - 1]) * 16 + DigitValue(s[|s| - 1])
  }

  /** `n.toString(16)`: lowercase base-16 digits without leading zeros. */
  function ToBase16(n: nat): (s: string)
    ensures 1 <= |s| && AllLowerHexDigits(s)
  {
    if n < 16 then [HexDigit(n)] else ToBase16(n / 16) + [HexDigit(n % 16)]
  }

  /** The low `k` base-16 digits of `v`, zero-padded to exactly `k` characters. */
  function PadHex(v: nat, k: nat): (s: string)
    ensures |s| == k && AllLowerHexDigits(s)
  {
    if k == 0 then [] else PadHex(v / 16, k - 1) + [HexDigit(v % 16)]
  }

  /** `hex.replace(/^#/, '')`: removes one leading `#`, if present. */
  function StripHash(hex: string): (t: string)
    ensures hex == t || hex == ['#'] + t
    ensures hex == ['#'] + t <==> (|hex| > 0 && hex[0] == '#')
  {
    if |hex| > 0 && hex[0] == '#' then hex[1..] else hex
  }

  /** A 3-character body is shorthand: every character is doubled. */
  function ExpandShorthand(t: string): (u: string)
    ensures |t| == 3 ==> |u| == 6 && forall i :: 0 <= i < 6 ==> u[i] == t[i / 2]
    ensures |t| != 3 ==> u == t
  {
    if |t| == 3 then [t[0], t[0], t[1], t[1], t[2], t[2]] else t
  }

  /** The body of a well-formed HEX colour: three or six hex digits. */
  predicate IsHexBody(t: string) {
    (|t| == 3 || |t| == 6) && AllHexDigits(t)
  }

  /**
   * `hexToRgb`: a string is accepted exactly when, after one optional `#`,
   * it is three or six hex digits; every other string is rejected with
   * InvalidColorFormat. Each channel decodes to a byte.
   */
  function HexToRgb(hex: string): (res: Result<Rgb>)
    ensures res.Success? <==> IsHexBody(StripHash(hex))
    ensures res.Failure? ==> res.error.InvalidColorFormat?
    ensures res.Success? ==> IsByte(res.value.r) && IsByte(res.value.g) && IsByte(res.value.b)
  {
    var parsed := ExpandShorthand(StripHash(hex));
    if !(|parsed| == 6 && AllHexDigits(parsed)) then
      Failure(InvalidColorFormat("Invalid HEX color format"))
    else
      Success(Rgb(HexValue(parsed[0..2]), HexValue(parsed[2..4]), HexValue(parsed[4..6])))
  }

  /**
   * `rgbToHex`: rejected with ValueOutOfRange exactly when a channel is
   * outside [0, 255]; otherwise `#` followed by `r * 65536 + g * 256 + b`
   * as six lowercase hex digits, zero-padded.
   */
  function RgbToHex(r: int, g: int, b: int): (res: Result<string>)
    ensures res.Failure? <==> !(IsByte(r) && IsByte(g) && IsByte(b))
    ensures res.Failure? ==> res.error.ValueOutOfRange?
    ensures res.Success? ==> res.value == ['#'] + PadHex(r * 0x1_0000 + g * 0x100 + b, 6)
  {
    if r < 0 || r > 255 || g < 0 || g > 255 || b < 0 || b > 255 then
      Failure(ValueOutOfRange("Invalid RGB values"))
    else
      // (1 << 24) + (r << 16) + (g << 8) + b: no shift leaves 32 bits here
      var v := r * 0x1_0000 + g * 0x100 + b;
      Pow16Values();
      ToBase16Offset(v, 6);
      Success(['#'] + ToBase16(0x100_0000 + v)[1..])
  }

  /** Printing `16^k + v` gives a forced `1` followed by `v` padded to `k` digits. */
  lemma {:induction false} ToBase16Offset(v: nat, k: nat)
    requires v < Pow16(k)
    ensures ToBase16(Pow16(k) + v) == ['1'] + PadHex(v, k)
  {
    if k > 0 {
      var n := Pow16(k) + v;
      assert n / 16 == Pow16(k - 1) + v / 16 && n % 16 == v % 16;
      ToBase16Offset(v / 16, k - 1);
    }
  }

  lemma Pow16Values()
    ensures Pow16(2) == 0x100 && Pow16(4) == 0x1_0000 && Pow16(6) == 0x100_0000
  {
  }

  /** Padded printing reads back as the value: `HexValue(PadHex(v, k)) == v`. */
  lemma {:induction false} HexValuePadHex(v: nat, k: nat)
    requires v < Pow16(k)
    ensures HexValue(PadHex(v, k)) == v
  {
    if k > 0 {
      var s := PadHex(v, k);
      assert s[..k - 1] == PadHex(v / 16, k - 1);
      HexValuePadHex(v / 16, k - 1);
    }
  }

  /** Padding what a digit string reads as gives the string back, in lower case. */
  lemma {:induction false} PadHexHexValue(s: string)
    requires AllHexDigits(s)
    ensures PadHex(HexValue(s), |s|) == LowerDigits(s)
  {
    if s != [] {
      var k := |s|;
      var init := s[..k - 1];
      var v := HexValue(s);
      assert v / 16 == HexValue(init) && v % 16 == DigitValue(s[k - 1]);
      PadHexHexValue(init);
      assert HexDigit(DigitValue(s[k - 1])) == LowerDigit(s[k - 1]);
      assert LowerDigits(s) == LowerDigits(init) + [LowerDigit(s[k - 1])];
    }
  }

  /** Padding splits at a digit boundary: the high part, then the low `k` digits. */
  lemma {:induction false} PadHexConcat(x: nat, y: nat, j: nat, k: nat)
    requires y < Pow16(k)
    ensures PadHex(x * Pow16(k) + y, j + k) == PadHex(x, j) + PadHex(y, k)
  {
    if k > 0 {
      ShiftDigit(x, y, k);
      PadHexConcat(x, y / 16, j, k - 1);
    }
  }

  /** Dropping the last digit of `x * 16^k + y` drops the last digit of `y`. */
  lemma ShiftDigit(x: nat, y: nat, k: nat)
    requires 0 < k && y < Pow16(k)
    ensures (x * Pow16(k) + y) / 16 == x * Pow16(k - 1) + y / 16
    ensures (x * Pow16(k) + y) % 16 == y % 16
    ensures y / 16 < Pow16(k - 1)
  {
    var m := x * Pow16(k - 1);
    assert x * Pow16(k) == 16 * m;
  }

  /** Four padded digits of `g * 256 + b` are two digits for `g`, then two for `b`. */
  lemma PadHexLow(v: nat, g: int, b: int)
    requires IsByte(g) && IsByte(b) && v == g * 0x100 + b
    ensures PadHex(v, 4) == PadHex(g, 2) + PadHex(b, 2)
  {
    Pow16Values();
    PadHexConcat(g, b, 2, 2);
  }

  /** Six padded digits of `r * 65536 + low` are two digits for `r`, then four for `low`. */
  lemma PadHexHigh(v: nat, r: int, low: int)
    requires IsByte(r) && 0 <= low < 0x1_0000 && v == r * 0x1_0000 + low
    ensures PadHex(v, 6) == PadHex(r, 2) + PadHex(low, 4)
  {
    Pow16Values();
    PadHexConcat(r, low, 2, 4);
  }

  /** Six padded digits of a packed colour are two digits per channel. */
  lemma PadHexChannels(r: int, g: int, b: int)
    requires IsByte(r) && IsByte(g) && IsByte(b)
    ensures PadHex(r * 0x1_0000 + g * 0x100 + b, 6) == PadHex(r, 2) + (PadHex(g, 2) + PadHex(b, 2))
  {
    var low := g * 0x100 + b;
    assert PadHex(low, 4) == PadHex(g, 2) + PadHex(b, 2) by {
      PadHexLow(low, g, b);
    }
    PadHexHigh(r * 0x1_0000 + g * 0x100 + b, r, low);
  }

  /** `rgbToHex` prints each channel as two lowercase hex digits, in order. */
  lemma RgbToHexChannels(r: int, g: int, b: int)
    requires IsByte(r) && IsByte(g) && IsByte(b)
    ensures RgbToHex(r, g, b) == Success(['#'] + PadHex(r, 2) + PadHex(g, 2) + PadHex(b, 2))
    ensures |RgbToHex(r, g, b).value| == 7 && AllLowerHexDigits(RgbToHex(r, g, b).value[1..])
  {
    var v := r * 0x1_0000 + g * 0x100 + b;
    var s := ['#'] + PadHex(v, 6);
    var p := PadHex(r, 2) + PadHex(g, 2) + PadHex(b, 2);
    assert RgbToHex(r, g, b) == Success(s);
    assert s[1..] == PadHex(v, 6);
    PadHexChannels(r, g, b);
    assert PadHex(v, 6) == p;
    assert ['#'] + p == ['#'] + PadHex(r, 2) + PadHex(g, 2) + PadHex(b, 2);
  }

  /** Decoding a six-digit body reads one channel from each digit pair. */
  lemma HexToRgbBody(body: string)
    requires |body| == 6 && AllHexDigits(body)
    ensures HexToRgb(['#'] + body)
      == Success(Rgb(HexValue(body[0..2]), HexValue(body[2..4]), HexValue(body[4..6])))
  {
    assert StripHash(['#'] + body) == body;
  }

  /** Decoding what `rgbToHex` prints gives back the channels. */
  lemma HexRoundTrip(r: int, g: int, b: int)
    requires IsByte(r) && IsByte(g) && IsByte(b)
    ensures RgbToHex(r, g, b).Success?
    ensures HexToRgb(RgbToHex(r, g, b).value) == Success(Rgb(r, g, b))
  {
    var v := r * 0x1_0000 + g * 0x100 + b;
    var body := PadHex(v, 6);
    assert RgbToHex(r, g, b) == Success(['#'] + body);
    PadHexChannels(r, g, b);
    assert body[0..2] == PadHex(r, 2) && body[2..4] == PadHex(g, 2) && body[4..6] == PadHex(b, 2);
    HexToRgbBody(body);
    Pow16Values();
    HexValuePadHex(r, 2);
    HexValuePadHex(g, 2);
    HexValuePadHex(b, 2);
  }

  /**
   * Re-encoding an accepted HEX string gives its canonical form: `#`, the
   * shorthand expanded, all digits in lower case.
   */
  lemma HexNormalises(hex: string)
    requires HexToRgb(hex).Success?
    ensures var c := HexToRgb(hex).value;
      RgbToHex(c.r, c.g, c.b) == Success(['#'] + LowerDigits(ExpandShorthand(StripHash(hex))))
  {
    var u := ExpandShorthand(StripHash(hex));
    assert |u| == 6 && AllHexDigits(u);
    var c := HexToRgb(hex).value;
    assert c == Rgb(HexValue(u[0..2]), HexValue(u[2..4]), HexValue(u[4..6]));
    PrintBody(u);
  }

  /** Printing the channels read from a six-digit body gives `#` and the body in lower case. */
  lemma PrintBody(u: string)
    requires |u| == 6 && AllHexDigits(u)
    ensures RgbToHex(HexValue(u[0..2]), HexValue(u[2..4]), HexValue(u[4..6]))
      == Success(['#'] + LowerDigits(u))
  {
    Pow16Values();
    RgbToHexChannels(HexValue(u[0..2]), HexValue(u[2..4]), HexValue(u[4..6]));
    PadHexHexValue(u[0..2]);
    PadHexHexValue(u[2..4]);
    PadHexHexValue(u[4..6]);
    LowerDigitsPairs(u);
  }

  /** Case folding a six-digit body folds each digit pair. */
  lemma LowerDigitsPairs(u: string)
    requires |u| == 6 && AllHexDigits(u)
    ensures ['#'] + LowerDigits(u)
      == ['#'] + LowerDigits(u[0..2]) + LowerDigits(u[2..4]) + LowerDigits(u[4..6])
  {
    assert LowerDigits(u) == LowerDigits(u[0..2]) + LowerDigits(u[2..4]) + LowerDigits(u[4..6]);
  }

  /** A digit pair reads as its high digit times 16 plus its low digit. */
  lemma HexValuePair(hi: char, lo: char)
    requires IsHexDigit(hi) && IsHexDigit(lo)
    ensures HexValue([hi, lo]) == 16 * DigitValue(hi) + DigitValue(lo)
  {
    assert [hi, lo][..1] == [hi];
    assert [hi][..0] == [];
  }

  /** Shorthand `#rgb` stands for `#rrggbb`: each channel is its digit times 17. */
  lemma HexShorthand(hex: string)
    requires var t := StripHash(hex); |t| == 3 && AllHexDigits(t)
    ensures var t := StripHash(hex);
      HexToRgb(hex) == Success(Rgb(17 * DigitValue(t[0]), 17 * DigitValue(t[1]), 17 * DigitValue(t[2])))
  {
    var t := StripHash(hex);
    var u := ExpandShorthand(t);
    assert u[0..2] == [t[0], t[0]] && u[2..4] == [t[1], t[1]] && u[4..6] == [t[2], t[2]];
    HexValuePair(t[0], t[0]);
    HexValuePair(t[1], t[1]);
    HexValuePair(t[2], t[2]);
  }

  /** A six-digit body decodes pair by pair. */
  lemma HexLong(hex: string)
    requires var t := StripHash(hex); |t| == 6 && AllHexDigits(t)
    ensures var t := StripHash(hex);
      HexToRgb(hex) == Success(Rgb(16 * DigitValue(t[0]) + DigitValue(t[1]),
                                   16 * DigitValue(t[2]) + DigitValue(t[3]),
                                   16 * DigitValue(t[4]) + DigitValue(t[5])))
  {
    var t := StripHash(hex);
    assert t[0..2] == [t[0], t[1]] && t[2..4] == [t[2], t[3]] && t[4..6] == [t[4], t[5]];
    HexValuePair(t[0], t[1]);
    HexValuePair(t[2], t[3]);
    HexValuePair(t[4], t[5]);
  }

  /** `#ff0000` and its shorthand `#f00` are red. */
  lemma HexToRgbRedExamples()
    ensures HexToRgb("#ff0000") == Success(Rgb(255, 0, 0))
    ensures HexToRgb("#f00") == Success(Rgb(255, 0, 0))
  {
    assert StripHash("#ff0000") == "ff0000";
    HexLong("#ff0000");
    assert StripHash("#f00") == "f00";
    HexShorthand("#f00");
  }

  /** A four-digit body and a doubled `#` are rejected. */
  lemma HexToRgbRejectExamples()
    ensures HexToRgb("#ff00") == Failure(InvalidColorFormat("Invalid HEX color format"))
    ensures HexToRgb("##ff0000").Failure?
  {
    assert StripHash("#ff00") == "ff00";
    assert StripHash("##ff0000") == "#ff0000";
  }

  /** A channel of 300 is rejected. */
  lemma RgbToHexRejectExample()
    ensures RgbToHex(300, 0, 0) == Failure(ValueOutOfRange("Invalid RGB values"))
  {
  }

  lemma RedDigits()
    ensures ['#'] + PadHex(255, 2) + PadHex(0, 2) + PadHex(0, 2) == "#ff0000"
  {
    assert PadHex(255, 2) == "ff" by { assert HexDigit(15) == 'f'; }
    assert PadHex(0, 2) == "00";
  }

  /** Red prints as `#ff0000`. */
  lemma RgbToHexRedExample()
    ensures RgbToHex(255, 0, 0) == Success("#ff0000")
  {
    RgbToHexChannels(255, 0, 0);
    RedDigits();
  }
}
