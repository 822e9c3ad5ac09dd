/**
 * Values shared by every conversion of the colour library: the two error
 * kinds, the result of a fallible conversion, and the three colour records.
 */
module Colors {

  /** The two error classes of the library; callers branch on the kind. */
  datatype ColorError =
    | InvalidColorFormat(msg: string)
    | ValueOutOfRange(msg: string)

  /**
   * Outcome of a conversion that can be rejected: a resolved value, or the
   * error the promise is rejected with.
   */
  datatype Result<T> = Success(value: T) | Failure(error: ColorError)

  /** An RGB colour with integer channels (the output of HEX and HSL decoding). */
  datatype Rgb = Rgb(r: int, g: int, b: int)

  /** An RGB colour whose channels may be fractional (brightness adjustment). */
  datatype RealRgb = RealRgb(r: real, g: real, b: real)

  /** An HSL colour: hue as a fraction of a turn, saturation and lightness. */
  datatype Hsl = Hsl(h: real, s: real, l: real)

  /** A channel of a valid RGB colour lies in [0, 255]. */
  predicate IsByte(x: int) {
    0 <= x <= 255
  }

  predicate IsUnit(x: real) {
    0.0 <= x <= 1.0
  }
}
