# Colour manipulation library, modelled in Dafny

A model of the JavaScript colour library `colorManipulationLibrary.js`, a set of
independent, side-effect-free conversions:

- `hexToRgb` parses a HEX colour: `#rrggbb` or the shorthand `#rgb`, the `#` optional, digits in either case.
- `rgbToHex` prints a colour as `#rrggbb` in lower case.
- `rgbToHsl` and `hslToRgb` convert between RGB and HSL.
- `adjustBrightness` shifts every channel by a percentage of full scale.
- `clamp` bounds a number to a closed range; it is shared by the brightness adjustment.

The two error classes, `InvalidColorFormatError` and `ValueOutOfRangeError`,
become the constructors of the datatype `Colors.ColorError`. Each one carries the
message the source uses. A fallible operation returns `Colors.Result`.

Files, one module each:

- `colors.dfy`: the error kinds, `Result`, and the colour records `Rgb` (integer channels), `RealRgb` (fractional channels) and `Hsl`.
- `clamp.dfy`: `clamp`.
- `hex_rgb.dfy`: HEX to RGB and back. `parseInt(…, 16)` and `Number.prototype.toString(16)` are written out as functions on digit strings.
- `hsl_rgb.dfy`: RGB to HSL and back, with the inner `hue2rgb`.
- `brightness.dfy`: `adjustBrightness`.

Modelling decisions:

- **Rejections short-circuit.** In the source, the validation branches (lines 17, 58 and 159) call `reject` and do not return. Execution then goes on to a `resolve` that has no effect, because the promise is already settled. What a caller can observe is the rejection alone, so the model returns `Failure` at that point.
- **Exact arithmetic.** The HSL and brightness arithmetic is over exact `real` numbers. IEEE-754 doubles are not modelled.
- **`Math.round`.** `Math.round(x)` is `(x + 0.5).Floor`, which rounds halves up. This follows the code. For h, s and l in [0, 1] every rounded value is non-negative, and there a "half away from zero" rule would give the same result. Outside that range the two differ: a value of -0.5 rounds to 0 here.
- **`hue2rgb` wrapping.** The helper adds 1 when `t < 0` and then subtracts 1 when `t > 1`. So `t == 1` stays at 1. The model follows the code rather than "wraps into [0, 1)".
- **Building the HEX value.** The source adds shifted channels: `(1 << 24) + (r << 16) + (g << 8) + b`. Because `reject` does not return, this line runs for every input, but its value is observable only for channels in [0, 255]; otherwise the promise is already rejected. For those channels no shift leaves 32 bits, so the model multiplies by 65536 and 256.
- **`rgbToHsl` input.** `rgbToHsl` does not validate its input. Its only precondition, `HslDefined`, says that no denominator of the saturation formula is zero. Where that fails, the channels differ (`max - min > 0`), so the saturation becomes `Infinity` in JavaScript, which exact reals cannot represent. `HslRgb.RgbToHslRange` shows that every colour with channels in [0, 255] meets it.
- **The HSL round trip is exact.** The conversions are commonly described as only approximately inverse, with a tolerance of 1 per channel. In the exact-arithmetic model the round trip is exact: `HslRgb.HslRoundTrip` proves `hslToRgb(rgbToHsl(r, g, b)) == (r, g, b)` for every colour with channels in [0, 255]. The approximation comes only from floating point.

## Model

| member | source | states |
|---|---|---|
| `Clamping.Clamp` | colorManipulationLibrary.js:29-31 | the result never exceeds `max`. When `min <= max` it lies in [min, max]: it is `value` when that is in range, `min` below the range and `max` above it |
| `Clamping.ClampIdempotent` | colorManipulationLibrary.js:29-31 | clamping twice to the same bounds equals clamping once |
| `Clamping.ClampInvertedBounds` | colorManipulationLibrary.js:29-31 | with `min > max` the result is always `max` |
| `Clamping.ClampMonotone` | colorManipulationLibrary.js:29-31 | clamping preserves the order of its argument |
| `Clamping.ClampExamples` | colorManipulationLibrary.js:29-31 | `clamp(10,0,5) = 5` (the case the library's test checks), and also `clamp(-3,0,5) = 0` and `clamp(3,0,5) = 3` |
| `HexRgb.StripHash` | colorManipulationLibrary.js:9 | one leading `#` is removed exactly when the input starts with `#`; otherwise the input is unchanged |
| `HexRgb.ExpandShorthand` | colorManipulationLibrary.js:12-14 | a 3-character body becomes 6 characters, each original character doubled in place; any other body is unchanged |
| `HexRgb.DigitValue` | colorManipulationLibrary.js:20-22 | a hex digit of either case reads as a value below 16 |
| `HexRgb.HexValue` | colorManipulationLibrary.js:20-22 | `parseInt(s, 16)` on a digit string is below `16^|s|`, so a digit pair gives a byte |
| `HexRgb.ToBase16` | colorManipulationLibrary.js:60 | `toString(16)` prints at least one digit, all lowercase hex digits |
| `HexRgb.HexToRgb` | colorManipulationLibrary.js:9-24 | success exactly when, after one optional `#`, the string is 3 or 6 hex digits; otherwise InvalidColorFormat. Every decoded channel is in [0, 255] |
| `HexRgb.HexLong` | colorManipulationLibrary.js:20-22 | a six-digit body decodes each digit pair as `16 * high + low` |
| `HexRgb.HexShorthand` | colorManipulationLibrary.js:12-13 | a three-digit body `#rgb` decodes each channel as its digit times 17 |
| `HexRgb.RgbToHex` | colorManipulationLibrary.js:57-61 | ValueOutOfRange exactly when some channel is below 0 or above 255. Otherwise the result is `#` followed by `r*65536 + g*256 + b` as six zero-padded lowercase hex digits |
| `HexRgb.ToBase16Offset` | colorManipulationLibrary.js:60 | printing `16^k + v` gives the forced `1` followed by `v` zero-padded to `k` digits, so dropping the first character leaves the padded value |
| `HexRgb.RgbToHexChannels` | colorManipulationLibrary.js:60-61 | the result has 7 characters: `#`, then two lowercase digits for each of r, g and b |
| `HexRgb.HexValuePadHex` | colorManipulationLibrary.js:20-22 | reading back a `k`-digit padded print of `v < 16^k` gives `v` |
| `HexRgb.PadHexHexValue` | colorManipulationLibrary.js:20-22 | printing the value of a digit string, padded to its length, gives the string in lower case |
| `HexRgb.HexRoundTrip` | colorManipulationLibrary.js:57-61 | for channels in [0, 255], `hexToRgb(rgbToHex(r, g, b))` succeeds with `(r, g, b)` |
| `HexRgb.HexNormalises` | colorManipulationLibrary.js:9-24 | re-encoding any accepted HEX string gives its canonical form: `#`, the shorthand expanded, the digits in lower case |
| `HexRgb.PrintBody` | colorManipulationLibrary.js:57-61 | printing the three channels read from a six-digit body gives `#` and that body in lower case |
| `HexRgb.HexToRgbRedExamples` | colorManipulationLibrary.js:9-24 | `#ff0000` decodes to (255, 0, 0), the case the library's test checks; the shorthand `#f00` decodes to the same colour |
| `HexRgb.HexToRgbRejectExamples` | colorManipulationLibrary.js:9-17 | `#ff00` fails with InvalidColorFormat (the case the library's test checks); `##ff0000` fails too, since only one `#` is stripped |
| `HexRgb.RgbToHexRedExample` | __tests__/colorManipulationLibrary.test.js:18-21 | `rgbToHex(255, 0, 0)` is `#ff0000` |
| `HexRgb.RgbToHexRejectExample` | __tests__/colorManipulationLibrary.test.js:55-57 | `rgbToHex(300, 0, 0)` fails with ValueOutOfRange |
| `HslRgb.Unit` | colorManipulationLibrary.js:77-79 | dividing by 255 is undone by multiplying by 255, and a channel is in [0, 255] exactly when its fraction is in [0, 1] |
| `HslRgb.Max3` | colorManipulationLibrary.js:80 | `Math.max` of three values is one of them and no smaller than any |
| `HslRgb.Min3` | colorManipulationLibrary.js:81 | `Math.min` of three values is one of them and no larger than any |
| `HslRgb.UnitToHsl` | colorManipulationLibrary.js:80-101 | saturation is 0 exactly when the largest and smallest channels are equal (the exact `max === min` test); then the hue is 0 too |
| `HslRgb.RgbToHsl` | colorManipulationLibrary.js:77-103 | after dividing by 255, saturation is 0 exactly for a grey input |
| `HslRgb.RgbToHslRange` | colorManipulationLibrary.js:77-103 | for channels in [0, 255] the computation is defined, with the hue in [0, 1), saturation and lightness in [0, 1], and lightness equal to (max + min) / 2 |
| `HslRgb.RgbToHslGrey` | colorManipulationLibrary.js:84-85 | a grey input (r = g = b) gives h = s = 0 and l = r / 255 |
| `HslRgb.RgbToHslRedExample` | __tests__/colorManipulationLibrary.test.js:23-26 | `rgbToHsl(255, 0, 0)` is (0, 1, 0.5) |
| `HslRgb.Hue2RgbBounds` | colorManipulationLibrary.js:124-131 | the contract of the inner `hue2rgb` (`HslRgb.Hue2Rgb`, whose values are pinned down by this lemma and by `RedSector`, `GreenSector` and `BlueSector`): when `p <= q` and `t >= -1`, every value lies in [p, q] |
| `HslRgb.Upper` | colorManipulationLibrary.js:133 | `q`, the top of the `hue2rgb` lobe, equals the lightness for zero saturation, and lies between the lightness and 1 for s and l in [0, 1] |
| `HslRgb.Rising` | colorManipulationLibrary.js:127 | the rising segment stays within [p, q] |
| `HslRgb.Falling` | colorManipulationLibrary.js:129 | the falling segment stays within [p, q] |
| `HslRgb.UpperLowerBounds` | colorManipulationLibrary.js:133-134 | for s, l in [0, 1], `0 <= p <= q <= 1` |
| `HslRgb.HslToUnit` | colorManipulationLibrary.js:121-122 | zero saturation gives r = g = b = l before scaling |
| `HslRgb.HslToUnitRange` | colorManipulationLibrary.js:121-138 | for h, s, l in [0, 1] every channel before scaling is in [0, 1] |
| `HslRgb.Round` | colorManipulationLibrary.js:140-142 | `Math.round(x)` is the integer n with x - 1/2 < n <= x + 1/2 |
| `HslRgb.RoundByte` | colorManipulationLibrary.js:140-142 | scaling a fraction in [0, 1] by 255 and rounding gives an integer in [0, 255] |
| `HslRgb.HslToRgb` | colorManipulationLibrary.js:121-144 | zero saturation gives equal channels |
| `HslRgb.HslToRgbRange` | colorManipulationLibrary.js:121-144 | for h, s, l in [0, 1], every output channel is an integer in [0, 255] |
| `HslRgb.HslToRgbGrey` | colorManipulationLibrary.js:121-122 | s = 0 gives r = g = b = round(255 * l), whatever the hue |
| `HslRgb.HslToRgbRedExample` | __tests__/colorManipulationLibrary.test.js:28-31 | `hslToRgb(0, 1, 0.5)` is (255, 0, 0) |
| `HslRgb.UpperOfSaturation` | colorManipulationLibrary.js:133-134 | for the saturation and lightness that `rgbToHsl` produces, `q` is the largest normalised channel and `p` the smallest |
| `HslRgb.RedSector` | colorManipulationLibrary.js:90-91 | when red is the largest channel, the three `hue2rgb` calls give back r, g and b |
| `HslRgb.GreenSector` | colorManipulationLibrary.js:93-94 | when green is the largest channel and red is not, the three calls give back r, g and b |
| `HslRgb.BlueSector` | colorManipulationLibrary.js:96-97 | when blue alone is the largest channel, the three calls give back r, g and b |
| `HslRgb.UnitRoundTrip` | colorManipulationLibrary.js:121-138 | on channels in [0, 1], the HSL-to-RGB formulas exactly undo the RGB-to-HSL ones |
| `HslRgb.HslRoundTrip` | colorManipulationLibrary.js:140-144 | for channels in [0, 255], `hslToRgb(rgbToHsl(r, g, b))` is exactly (r, g, b) |
| `Brightness.Shift` | colorManipulationLibrary.js:162-164 | an adjusted channel is in [0, 255]. It is `c + percentage * 2.55` when that is in range, 0 below the range and 255 above it |
| `Brightness.AdjustBrightness` | colorManipulationLibrary.js:158-167 | ValueOutOfRange exactly when the percentage is outside [-100, 100]. Otherwise each channel is `clamp(c + percentage * 2.55, 0, 255)`, in [0, 255] and not rounded |
| `Brightness.AdjustBrightnessZero` | colorManipulationLibrary.js:162-164 | a 0% adjustment leaves a colour with channels in [0, 255] unchanged |
| `Brightness.AdjustBrightnessMonotone` | colorManipulationLibrary.js:162-164 | a larger percentage never gives a smaller channel |
| `Brightness.AdjustBrightnessBrightens` | colorManipulationLibrary.js:162-164 | a non-negative percentage never darkens a channel that starts in [0, 255] |
| `Brightness.AdjustBrightnessExamples` | __tests__/colorManipulationLibrary.test.js:33-63 | red +50% is (255, 127.5, 127.5) and red -50% is (127.5, 0, 0); 150% fails with ValueOutOfRange |

## Left out

- The `Promise` and `setTimeout(…, 200)` wrappers (colorManipulationLibrary.js:7-8, 55-56, 74-75, 116-117, 156-157). They are asynchronous plumbing, so each operation is a direct function.
- IEEE-754 floating point. All HSL and brightness arithmetic is exact. Float rounding artefacts, `Infinity` and `NaN` do not arise.
- `HslRgb.RgbToHsl`: does not model inputs whose saturation denominator is zero (their saturation becomes `Infinity` in JavaScript). Such inputs need channels outside [0, 255].
- JavaScript coercions outside the typed domain are not modelled: non-integer channels truncated by `<<`, `parseInt` on malformed text, and non-string HEX arguments. Channels of `rgbToHex` and `rgbToHsl` are integers, and HEX input is a string.
- JavaScript strings are sequences of UTF-16 code units; the model uses Dafny characters. The two agree on every string that could pass the six-hex-digit test.
- The `Error` subclassing and the `name` field (colorManipulationLibrary.js:33-45). The model keeps only the kind and the message.
- The export list (colorManipulationLibrary.js:173-182) and `index.js`, which only re-export.
