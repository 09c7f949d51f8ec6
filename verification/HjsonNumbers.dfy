/** Which texts are numbers: exactly those of the JSON grammar, in section 6 of RFC 8259. */
module HjsonNumbers {
  import opened ByteStrings
  import opened DataNodes
  import opened Ascii
  import opened HjsonSyntax
  import opened HjsonTokens
  import Libc

  /** A sign, digits without a leading zero, and perhaps a fraction and an exponent. */
  datatype Numeral = Numeral(negative: bool, whole: Bytes, fraction: Option<Bytes>, exponent: Option<Power>)
  datatype Power = Power(letter: Byte, sign: Bytes, digits: Bytes)

  predicate Digital(s: Bytes) {
    s != [] && forall i :: 0 <= i < |s| ==> IsDigit(s[i])
  }

  predicate IsNumeral(n: Numeral) {
    && Digital(n.whole) && (n.whole[0] == ZERO ==> |n.whole| == 1)
    && (n.fraction.Some? ==> Digital(n.fraction.value))
    && (n.exponent.Some? ==>
          var e := n.exponent.value;
          (e.letter == 101 || e.letter == 69) && (e.sign == [] || e.sign == [PLUS] || e.sign == [MINUS]) && Digital(e.digits))
  }

  function PowerText(e: Option<Power>): Bytes {
    match e
    case None => []
    case Some(x) => [x.letter] + x.sign + x.digits
  }

  function FractionText(f: Option<Bytes>): Bytes {
    match f
    case None => []
    case Some(x) => [DOT] + x
  }

  function Text(n: Numeral): Bytes {
    (if n.negative then [MINUS] else []) + n.whole + FractionText(n.fraction) + PowerText(n.exponent)
  }

  function Kind(n: Numeral): Shape {
    if n.fraction.None? && n.exponent.None? then Whole else Fractional
  }

  // ---- Every numeral is recognised ----

  lemma PowerReads(s: Bytes, p: nat, e: Option<Power>, fractional: bool)
    requires p <= |s| && s[p..] == PowerText(e)
    requires e.Some? ==> (IsExp(e.value.letter) && (e.value.sign == [] || e.value.sign == [PLUS] || e.value.sign == [MINUS]) && Digital(e.value.digits))
    ensures AfterFraction(s, p, fractional) == if e.Some? || fractional then Fractional else Whole
    ensures e.Some? ==> p < |s| && IsExp(s[p])
  {
    hide DigitsEnd;
    if e.Some? {
      var x := e.value;
      var tail := s[p..];
      var q := p + 1 + |x.sign|;
      assert tail[1 + |x.sign|..] == x.digits;
      assert s[q..] == x.digits;
      assert forall i :: q <= i < |s| ==> s[i] == s[q..][i - q];
      assert s[p] == tail[0];
      assert s[p + 1] == tail[1] == if x.sign == [] then x.digits[0] else x.sign[0];
      DigitsRun(s, q, |s|);
    }
  }

  lemma FractionReads(s: Bytes, p: nat, n: Numeral)
    requires IsNumeral(n) && p <= |s| && s[p..] == FractionText(n.fraction) + PowerText(n.exponent)
    ensures AfterWhole(s, p) == Kind(n) && (p < |s| ==> !IsDigit(s[p]))
  {
    hide AfterFraction, DigitsEnd, PowerText;
    if n.fraction.Some? {
      var f, e := n.fraction.value, PowerText(n.exponent);
      assert s[p..] == [DOT] + f + e;
      assert s[p + 1 + |f|..] == s[p..][1 + |f|..] == e;
      PowerReads(s, p + 1 + |f|, n.exponent, true);
      PowerBegins(n.exponent);
      PointShape(s, p, f, e);
    } else {
      assert s[p..] == PowerText(n.exponent);
      NoFraction(s, p, n.exponent);
    }
  }

  lemma NoFraction(s: Bytes, p: nat, e: Option<Power>)
    requires p <= |s| && s[p..] == PowerText(e)
    requires e.Some? ==> (IsExp(e.value.letter) && (e.value.sign == [] || e.value.sign == [PLUS] || e.value.sign == [MINUS]) && Digital(e.value.digits))
    ensures AfterWhole(s, p) == (if e.Some? then Fractional else Whole) && (p < |s| ==> !IsDigit(s[p]))
  {
    hide AfterFraction;
    PowerReads(s, p, e, false);
    if e.Some? { assert s[p] == s[p..][0]; }
  }

  lemma PowerBegins(e: Option<Power>)
    requires e.Some? ==> IsExp(e.value.letter)
    ensures PowerText(e) != [] ==> !IsDigit(PowerText(e)[0])
  {
  }

  lemma NumeralReads(n: Numeral)
    requires IsNumeral(n)
    ensures NumberShape(Text(n)) == Kind(n)
  {
    hide AfterWhole, DigitsEnd, FractionText, PowerText;
    var s, p := Text(n), if n.negative then 1 else 0;
    var q := p + |n.whole|;
    assert s[p..q] == n.whole && s[q..] == FractionText(n.fraction) + PowerText(n.exponent);
    assert forall i :: p <= i < q ==> s[i] == s[p..q][i - p];
    FractionReads(s, q, n);
    DigitsRun(s, p, q);
  }

  // ---- Nothing else is ----

  lemma {:induction false} DigitsEndIs(s: Bytes, p: nat)
    requires p <= |s|
    ensures var q := DigitsEnd(s, p); (forall i :: p <= i < q ==> IsDigit(s[i])) && (q < |s| ==> !IsDigit(s[q]))
    decreases |s| - p
  {
    if p < |s| && IsDigit(s[p]) {
      DigitsEndIs(s, p + 1);
    }
  }

  lemma PowerFound(s: Bytes, p: nat, fractional: bool) returns (e: Option<Power>)
    requires p <= |s| && AfterFraction(s, p, fractional) != NotANumber
    ensures s[p..] == PowerText(e)
    ensures e.Some? ==> (IsExp(e.value.letter) && (e.value.sign == [] || e.value.sign == [PLUS] || e.value.sign == [MINUS]) && Digital(e.value.digits))
  {
    hide DigitsEnd;
    if p == |s| {
      e := None;
    } else {
      var q := if p + 1 < |s| && (s[p + 1] == PLUS || s[p + 1] == MINUS) then p + 2 else p + 1;
      DigitsEndIs(s, q);
      e := Some(Power(s[p], s[p + 1..q], s[q..]));
      assert s[p..] == [s[p]] + s[p + 1..q] + s[q..];
    }
  }

  predicate IsPower(e: Option<Power>) {
    e.Some? ==> IsExp(e.value.letter) && (e.value.sign == [] || e.value.sign == [PLUS] || e.value.sign == [MINUS]) && Digital(e.value.digits)
  }

  lemma FractionFound(s: Bytes, q: nat) returns (f: Option<Bytes>, e: Option<Power>)
    requires q <= |s| && AfterWhole(s, q) != NotANumber
    ensures s[q..] == FractionText(f) + PowerText(e) && IsPower(e) && (f.Some? ==> Digital(f.value))
  {
    hide DigitsEnd, AfterFraction, PowerText;
    if q < |s| && s[q] == DOT {
      var r := DigitsEnd(s, q + 1);
      DigitsEndIs(s, q + 1);
      DigitsMove(s, q + 1);
      e := PowerFound(s, r, true);
      f := Some(s[q + 1..r]);
      assert s[q..] == [s[q]] + s[q + 1..r] + s[r..];
    } else {
      e := PowerFound(s, q, false);
      f := None;
      assert [] + PowerText(e) == PowerText(e);
    }
  }

  lemma NumeralFound(s: Bytes) returns (n: Numeral)
    requires NumberShape(s) != NotANumber
    ensures IsNumeral(n) && s == Text(n)
  {
    hide DigitsEnd, AfterWhole, PowerText, FractionText;
    var p := if s != [] && s[0] == MINUS then 1 else 0;
    var q := DigitsEnd(s, p);
    DigitsEndIs(s, p);
    DigitsMove(s, p);
    var f, e := FractionFound(s, q);
    n := Numeral(p == 1, s[p..q], f, e);
    Assembled(s, p, q, FractionText(f), PowerText(e));
  }

  lemma Assembled(s: Bytes, p: nat, q: nat, f: Bytes, e: Bytes)
    requires p <= q <= |s| && s[q..] == f + e
    ensures s == s[..p] + s[p..q] + f + e
  {
    assert s == s[..p] + s[p..q] + s[q..];
  }

  lemma DigitsMove(s: Bytes, p: nat)
    requires DigitAt(s, p)
    ensures DigitsEnd(s, p) > p && (!DigitAt(s, p + 1) ==> DigitsEnd(s, p) == p + 1)
  {
  }

  /** A text is a number of a kind exactly when it is a numeral of that kind. */
  lemma NumbersExactly(s: Bytes, kind: Shape)
    requires kind != NotANumber
    ensures NumberShape(s) == kind <==> exists n :: IsNumeral(n) && s == Text(n) && Kind(n) == kind
  {
    hide NumberShape, IsNumeral, Text, Kind;
    if NumberShape(s) == kind {
      var n := NumeralFound(s);
      NumeralReads(n);
    }
    if n :| IsNumeral(n) && s == Text(n) && Kind(n) == kind {
      NumeralReads(n);
    }
  }

  // ---- What they are worth ----

  function Tens(n: nat): nat {
    if n == 0 then 1 else 10 * Tens(n - 1)
  }

  /** A digit in front counts by its place. */
  lemma {:induction false} DigitsByPlace(d: Byte, s: Bytes)
    requires IsDigit(d) && forall i :: 0 <= i < |s| ==> IsDigit(s[i])
    ensures DigitsValue([d] + s) == (d as int - 48) * Tens(|s|) + DigitsValue(s)
  {
    if s == [] {
      assert ([d] + s)[..0] == [];
      assert DigitsValue([d] + s) == 10 * DigitsValue([]) + (d as int - 48);
    } else {
      var n := |s| - 1;
      DigitsByPlace(d, s[..n]);
      assert ([d] + s)[..n + 1] == [d] + s[..n];
      var a, b := d as int - 48, Tens(n);
      assert 10 * (a * b) == a * (10 * b);
    }
  }

  /** What a keyword or number means, by the grammar: a whole number that fits 64 bits is that integer, any
      other number is what the C library makes of it unless that is infinite, and nothing else is known
      but the three keywords. */
  lemma KnownExactly(c: Libc.Calls, s: Bytes)
    ensures KeywordOrNumber(c, s) ==
              if s == TRUE_TEXT then Some(VBool(true))
              else if s == FALSE_TEXT then Some(VBool(false))
              else if s == NULL_TEXT then Some(VNull)
              else if (exists n :: IsNumeral(n) && s == Text(n) && Kind(n) == Whole) && InInt64(WholeValue(s)) then Some(VInt(WholeValue(s)))
              else if (exists n :: IsNumeral(n) && s == Text(n)) && Libc.IsFinite(c.strtod(s)) then Some(VFloat(c.strtod(s)))
              else None
  {
    hide NumberShape, IsNumeral, Text, Kind, WholeValue, Libc.IsFinite;
    NumbersExactly(s, Whole);
    NumbersExactly(s, Fractional);
    AnyKind(s);
    Starts(s);
  }

  lemma AnyKind(s: Bytes)
    ensures (exists n :: IsNumeral(n) && s == Text(n)) <==> NumberShape(s) != NotANumber
  {
    hide NumberShape, IsNumeral, Text;
    if n :| IsNumeral(n) && s == Text(n) {
      NumeralReads(n);
    }
    if NumberShape(s) != NotANumber {
      var n := NumeralFound(s);
    }
  }

  lemma Starts(s: Bytes)
    ensures NumberShape(s) != NotANumber ==> s != [] && (s[0] == MINUS || IsDigit(s[0]))
  {
    hide AfterWhole;
  }
}
