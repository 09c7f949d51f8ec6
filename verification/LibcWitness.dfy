/** The contract assumed of the C library can be met, so what follows from it is not about nothing. */
module LibcWitness {
  import opened ByteStrings
  import opened DataNodes
  import opened Ascii
  import opened HjsonSyntax
  import opened JsonText
  import opened HjsonTokens
  import Libc

  /** A double as the decimal digits of its 64 bits. */
  function Print(prec: nat, d: Double): Bytes {
    Digits(d)
  }

  /** The number that the leading digits of a text spell, cut to 64 bits. */
  function Scan(s: Bytes): Double {
    DigitsValue(s[..DigitsEnd(s, 0)]) % 0x1_0000_0000_0000_0000
  }

  lemma PrintsDecimals(prec: nat, d: Double)
    ensures var x := Libc.Decimal(false, Digits(d), [], None); Libc.WellFormed(x) && Print(prec, d) == Libc.Rendered(x)
  {
    DigitsAre(d);
  }

  lemma ScansBack(d: Double)
    ensures Scan(Print(17, d)) == d
  {
    DigitsAre(d);
    DigitsRun(Digits(d), 0, |Digits(d)|);
    assert Digits(d)[..|Digits(d)|] == Digits(d);
  }

  /** Both forms of a decimal begin with the same digits. */
  lemma ScansAlike(x: Libc.Decimal)
    requires Libc.WellFormed(x)
    ensures Scan(Libc.Literal(x)) == Scan(Libc.Rendered(x))
  {
    hide DigitsEnd, DigitsValue;
    LeadingDigits(x, Libc.LiteralTail(x));
    var tail := Libc.FractionText(x) + if x.exponent.Some? then [101, x.exponent.value.sign] + x.exponent.value.digits else [];
    LeadingDigits(x, tail);
    assert Libc.Rendered(x) == Libc.SignText(x) + x.whole + tail;
  }

  lemma LeadingDigits(x: Libc.Decimal, tail: Bytes)
    requires Libc.WellFormed(x) && (tail != [] ==> !IsDigit(tail[0]))
    ensures var s := Libc.SignText(x) + x.whole + tail;
            s[..DigitsEnd(s, 0)] == if x.negative then [] else x.whole
  {
    hide DigitsEnd;
    var s := Libc.SignText(x) + x.whole + tail;
    ThreeParts(Libc.SignText(x), x.whole, tail);
    if x.negative {
      DigitsRun(s, 0, 0);
    } else {
      DigitsRun(s, 0, |x.whole|);
    }
  }

  /** Printing the bits and scanning leading digits is one library that keeps the contract. */
  lemma ContractCanBeMet()
    ensures exists c :: Libc.Contract(c)
  {
    hide Print, Scan, Libc.WellFormed, Libc.Rendered, Libc.Literal;
    var c := Libc.Calls((prec, d) => Print(prec, d), s => Scan(s));
    forall prec: nat, d: Double | 1 <= prec <= 17 && Libc.IsFinite(d)
      ensures exists x :: Libc.WellFormed(x) && c.format(prec, d) == Libc.Rendered(x)
    {
      PrintsDecimals(prec, d);
    }
    forall d: Double | Libc.IsFinite(d)
      ensures c.strtod(c.format(17, d)) == d
    {
      ScansBack(d);
    }
    forall x | Libc.WellFormed(x)
      ensures c.strtod(Libc.Literal(x)) == c.strtod(Libc.Rendered(x))
    {
      ScansAlike(x);
    }
    assert Libc.Contract(c);
  }
}
