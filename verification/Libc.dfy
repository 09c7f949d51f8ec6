/** The two C library calls that turn doubles into text and back. They are not modelled; what the
    program relies on is stated as a predicate on them. */
module Libc {
  import opened ByteStrings
  import opened DataNodes
  import opened Ascii

  /** `format(prec, d)` is what printing d with "%.{prec}g" gives, `strtod` is strtod. */
  datatype Calls = Calls(format: (nat, Double) -> Bytes, strtod: Bytes -> Double)

  /** Neither infinite nor NaN: the exponent field is not all ones. */
  predicate IsFinite(d: Double) {
    d / 0x10_0000_0000_0000 % 0x800 != 0x7ff
  }

  predicate AllDigits(s: Bytes) {
    forall i :: 0 <= i < |s| ==> IsDigit(s[i])
  }

  /** A decimal number: sign, digits before and after the point, and perhaps an exponent with its sign byte. */
  datatype Decimal = Decimal(negative: bool, whole: Bytes, fraction: Bytes, exponent: Option<Exponent>)
  datatype Exponent = Exponent(sign: Byte, digits: Bytes)

  predicate WellFormed(x: Decimal) {
    && |x.whole| > 0 && AllDigits(x.whole) && (x.whole[0] == ZERO ==> |x.whole| == 1)
    && AllDigits(x.fraction)
    && (x.exponent.Some? ==>
          var e := x.exponent.value;
          (e.sign == PLUS || e.sign == MINUS) && |e.digits| > 0 && AllDigits(e.digits))
  }

  function SignText(x: Decimal): Bytes {
    if x.negative then [MINUS] else []
  }

  function FractionText(x: Decimal): Bytes {
    if x.fraction == [] then [] else [DOT] + x.fraction
  }

  /** The shape of what "%g" prints for a finite number. */
  function Rendered(x: Decimal): Bytes {
    SignText(x) + x.whole + FractionText(x) +
    if x.exponent.Some? then [101, x.exponent.value.sign] + x.exponent.value.digits else []
  }

  /** What serialize_leaf makes of that text: no plus in the exponent, and a point or an exponent in any case. */
  function Literal(x: Decimal): Bytes {
    SignText(x) + x.whole + LiteralTail(x)
  }

  function LiteralTail(x: Decimal): Bytes {
    match x.exponent
    case Some(e) => FractionText(x) + [101] + (if e.sign == PLUS then [] else [e.sign]) + e.digits
    case None => if x.fraction == [] then [DOT, ZERO] else FractionText(x)
  }

  /** "%g" prints well-formed decimals, 17 significant digits determine a double, and neither a plus
      sign in the exponent nor a trailing ".0" changes the number that strtod reads. */
  ghost predicate Contract(c: Calls) {
    && (forall prec: nat, d: Double :: 1 <= prec <= 17 && IsFinite(d) ==> exists x :: WellFormed(x) && c.format(prec, d) == Rendered(x))
    && (forall d: Double :: IsFinite(d) ==> c.strtod(c.format(17, d)) == d)
    && (forall x :: WellFormed(x) ==> c.strtod(Literal(x)) == c.strtod(Rendered(x)))
  }
}
