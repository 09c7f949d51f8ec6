/** The parser undoes the printer on blanks, strings, numbers and keywords. */
module HjsonTokens {
  import opened ByteStrings
  import opened DataNodes
  import opened Ascii
  import opened HjsonScanners
  import opened HjsonSyntax
  import opened JsonText
  import Libc

  // ---- Blanks ----

  /** Nothing to skip at p: the end, or a byte that is neither a blank nor the start of a comment. */
  predicate Solid(t: Bytes, p: nat)
    requires p <= |t|
  {
    p < |t| ==> !IsSpace(t[p]) && !CommentAt(t, p)
  }

  lemma SkipBlanks(t: Bytes, p: nat, q: nat)
    requires p <= q <= |t| && Solid(t, q)
    requires forall i :: p <= i < q ==> IsSpace(t[i])
    ensures SkipWs(t, p) == q
  {
    hide IsSpace;
    FirstHitIs(NotSpace, t, p, |t|, q);
  }

  // ---- Strings ----

  lemma HexUndoes(v: nat)
    requires v < 16
    ensures IsHex(HexDigit(v)) && HexValue(HexDigit(v)) == v
  {
  }

  /** Reading one escaped byte gives that byte, and is as RFC 8259 section 7 has it. */
  lemma EscapeUndoes(t: Bytes, p: nat, c: Byte, acc: Bytes)
    requires At(t, p, EscapedByte(c))
    ensures QuotedFrom(t, p, QUOTE, acc) == QuotedFrom(t, p + |EscapedByte(c)|, QUOTE, acc + [c])
  {
    var e := EscapedByte(c);
    AtByte(t, p, e, 0);
    if |e| > 1 {
      AtByte(t, p, e, 1);
    }
    if |e| == 6 {
      AtByte(t, p, e, 2);
      AtByte(t, p, e, 3);
      AtByte(t, p, e, 4);
      AtByte(t, p, e, 5);
      UnicodeUndoes(t, p + 2, c);
    }
  }

  lemma UnicodeUndoes(t: Bytes, p: nat, c: Byte)
    requires c < 32 && p + 4 <= |t|
    requires t[p] == ZERO && t[p + 1] == ZERO && t[p + 2] == HexDigit(c / 16) && t[p + 3] == HexDigit(c % 16)
    ensures UnicodeEscape(t, p) == TextTo([c], p + 4)
  {
    HexUndoes(c / 16);
    HexUndoes(c % 16);
  }

  lemma {:induction false} EscapedUndoes(t: Bytes, p: nat, s: Bytes, k: nat, acc: Bytes)
    requires k <= |s|
    requires At(t, p, Escaped(s, k) + [QUOTE])
    ensures QuotedFrom(t, p, QUOTE, acc) == TextTo(acc + s[k..], p + |Escaped(s, k)| + 1)
    decreases |s| - k
  {
    hide At, EscapedByte, QuotedFrom;
    if k == |s| {
      assert Escaped(s, k) + [QUOTE] == [QUOTE];
      ClosingQuote(t, p, acc);
      assert acc + s[k..] == acc;
    } else {
      var e, rest := EscapedByte(s[k]), Escaped(s, k + 1) + [QUOTE];
      assert Escaped(s, k) + [QUOTE] == e + rest;
      AtConcat(t, p, e, rest);
      EscapeUndoes(t, p, s[k], acc);
      EscapedUndoes(t, p + |e|, s, k + 1, acc + [s[k]]);
      assert acc + s[k..] == acc + [s[k]] + s[k + 1..];
    }
  }

  lemma ClosingQuote(t: Bytes, p: nat, acc: Bytes)
    requires At(t, p, [QUOTE])
    ensures QuotedFrom(t, p, QUOTE, acc) == TextTo(acc, p + 1)
  {
    assert t[p] == t[p..p + 1][0];
  }

  lemma StringUndoes(t: Bytes, p: nat, s: Bytes, multiline: bool)
    requires At(t, p, StringText(s))
    ensures t[p] == QUOTE
    ensures Quoted(t, p, multiline) == TextTo(s, p + |StringText(s)|)
  {
    hide QuotedFrom, Escaped;
    var rest := Escaped(s, 0) + [QUOTE];
    assert StringText(s) == [QUOTE] + rest;
    AtConcat(t, p, [QUOTE], rest);
    assert t[p] == t[p..p + 1][0];
    EscapedUndoes(t, p + 1, s, 0, []);
    assert [] + s[0..] == s;
    NotApostrophes(t, p);
  }

  lemma NotApostrophes(t: Bytes, p: nat)
    requires p < |t| && t[p] == QUOTE
    ensures !TripleAt(t, p) && !At(t, p, [APOSTROPHE, APOSTROPHE])
  {
    NotAt(t, p, [APOSTROPHE, APOSTROPHE, APOSTROPHE]);
    NotAt(t, p, [APOSTROPHE, APOSTROPHE]);
  }

  // ---- Digits ----

  lemma {:induction false} DigitsAre(n: nat)
    ensures Libc.AllDigits(Digits(n))
    ensures Digits(n)[0] == ZERO ==> |Digits(n)| == 1
    ensures n > 0 ==> Digits(n)[0] != ZERO
    ensures DigitsValue(Digits(n)) == n
  {
    if n >= 10 {
      DigitsAre(n / 10);
      assert Digits(n)[..|Digits(n)| - 1] == Digits(n / 10);
    } else {
      assert DigitsValue([48 + n]) == 10 * DigitsValue([48 + n][..0]) + n;
    }
  }

  lemma {:induction false} DigitsRun(s: Bytes, p: nat, q: nat)
    requires p <= q <= |s| && forall i :: p <= i < q ==> IsDigit(s[i])
    requires q < |s| ==> !IsDigit(s[q])
    ensures DigitsEnd(s, p) == q
    decreases q - p
  {
    if p < q {
      DigitsRun(s, p + 1, q);
    }
  }

  lemma NumberNotKeyword(c: Libc.Calls, s: Bytes)
    requires s != [] && (s[0] == MINUS || IsDigit(s[0]))
    ensures KeywordOrNumber(c, s) == Number(c, s)
  {
    hide Number;
    assert TRUE_TEXT[0] == 116 && FALSE_TEXT[0] == 102 && NULL_TEXT[0] == 110;
  }

  // ---- Whole numbers ----

  lemma IntShape(i: Int64)
    ensures NumberShape(IntText(i)) == Whole && WholeValue(IntText(i)) == i
    ensures IntText(i) != [] && (IntText(i)[0] == MINUS || IsDigit(IntText(i)[0]))
  {
    hide DigitsValue, Digits;
    var n: int := if i < 0 then -(i as int) else i;
    var s, p := IntText(i), if i < 0 then 1 else 0;
    DigitsAre(n);
    assert s[p..] == Digits(n);
    assert forall k :: p <= k < |s| ==> s[k] == s[p..][k - p];
    DigitsRun(s, p, |s|);
  }

  lemma IntUndoes(c: Libc.Calls, i: Int64)
    ensures KeywordOrNumber(c, IntText(i)) == Some(VInt(i))
  {
    hide NumberShape, WholeValue, IntText, KeywordOrNumber;
    IntShape(i);
    NumberNotKeyword(c, IntText(i));
  }

  // ---- Floating point ----

  lemma {:induction false} ShortestUndoes(c: Libc.Calls, d: Double, prec: nat) returns (x: Libc.Decimal)
    requires Libc.Contract(c) && Libc.IsFinite(d) && 1 <= prec <= 17
    ensures Libc.WellFormed(x) && Shortest(c, d, prec) == Libc.Rendered(x) && c.strtod(Libc.Rendered(x)) == d
    decreases 17 - prec
  {
    hide Libc.Rendered, Libc.WellFormed, Libc.IsFinite;
    if prec == 17 || c.strtod(c.format(prec, d)) == d {
      x :| Libc.WellFormed(x) && c.format(prec, d) == Libc.Rendered(x);
    } else {
      x := ShortestUndoes(c, d, prec + 1);
    }
  }

  lemma {:induction false} ExponentIsAt(s: Bytes, k: nat, e: nat)
    requires k <= e <= |s| && forall i :: k <= i < e ==> !IsExp(s[i])
    requires e < |s| ==> IsExp(s[e])
    ensures ExponentAt(s, k) == e
    decreases e - k
  {
    if k < e {
      ExponentIsAt(s, k + 1, e);
    }
  }

  /** The text before the exponent. */
  function Mantissa(x: Libc.Decimal): Bytes {
    Libc.SignText(x) + x.whole + Libc.FractionText(x)
  }

  lemma MantissaBytes(x: Libc.Decimal)
    requires Libc.WellFormed(x)
    ensures IsMantissa(Mantissa(x))
    ensures DOT in Mantissa(x) <==> x.fraction != []
  {
    var a, b, f := Libc.SignText(x), x.whole, Libc.FractionText(x);
    assert Mantissa(x) == a + b + f;
    assert forall i :: 0 <= i < |f| ==> i == 0 || IsDigit(f[i]) by {
      assert forall i :: 0 < i < |f| ==> f[i] == x.fraction[i - 1];
    }
    if x.fraction != [] {
      assert Mantissa(x)[|a + b|] == DOT;
    }
  }

  /** The clean-up of the "%g" text. */
  lemma LiteralUndoes(x: Libc.Decimal)
    requires Libc.WellFormed(x)
    ensures FloatLiteral(Libc.Rendered(x)) == Libc.Literal(x)
  {
    hide Mantissa, Libc.FractionText, Libc.SignText, FloatLiteral, IsExp;
    var m := Mantissa(x);
    MantissaBytes(x);
    LiteralParts(x);
    match x.exponent
    case None => CleanPlain(m);
    case Some(e) => CleanExponent(m, e.sign, e.digits);
  }

  lemma LiteralParts(x: Libc.Decimal)
    ensures x.exponent.None? ==> Libc.Rendered(x) == Mantissa(x)
    ensures x.exponent.None? ==> Libc.Literal(x) == Mantissa(x) + if x.fraction == [] then [DOT, ZERO] else []
    ensures x.exponent.Some? ==>
              var e := x.exponent.value;
              && Libc.Rendered(x) == Mantissa(x) + [101, e.sign] + e.digits
              && Libc.Literal(x) == Mantissa(x) + [101] + (if e.sign == PLUS then [] else [e.sign]) + e.digits
  {
  }

  predicate IsMantissa(m: Bytes) {
    forall i :: 0 <= i < |m| ==> IsDigit(m[i]) || m[i] == MINUS || m[i] == DOT
  }

  lemma CleanPlain(m: Bytes)
    requires IsMantissa(m)
    ensures FloatLiteral(m) == m + if DOT in m then [] else [DOT, ZERO]
  {
    hide ExponentAt;
    ExponentIsAt(m, 0, |m|);
  }

  lemma CleanExponent(m: Bytes, sign: Byte, digits: Bytes)
    requires IsMantissa(m)
    ensures FloatLiteral(m + [101, sign] + digits) == m + [101] + (if sign == PLUS then [] else [sign]) + digits
  {
    hide ExponentAt, IsMantissa;
    var s := m + [101, sign] + digits;
    MantissaEnds(m, [101, sign] + digits);
    assert s == m + ([101, sign] + digits);
    assert s[|m| + 1] == sign;
    if sign == PLUS {
      assert s[..|m| + 1] == m + [101];
      assert s[|m| + 2..] == digits;
    }
  }

  lemma MantissaEnds(m: Bytes, rest: Bytes)
    requires IsMantissa(m) && rest != [] && rest[0] == 101
    ensures ExponentAt(m + rest, 0) == |m|
  {
    var s := m + rest;
    assert forall i :: 0 <= i < |m| ==> s[i] == m[i];
    ExponentIsAt(s, 0, |m|);
  }

  /** Where the sign, the whole digits and the tail of a literal stand. */
  lemma LiteralLayout(x: Libc.Decimal)
    requires Libc.WellFormed(x)
    ensures var s, p := Libc.Literal(x), |Libc.SignText(x)|;
            var q := p + |x.whole|;
            && p < q <= |s| && p <= 1 && (p == 1 ==> s[0] == MINUS) && s[q..] == Libc.LiteralTail(x)
            && (forall i :: p <= i < q ==> IsDigit(s[i])) && (s[p] == ZERO ==> q == p + 1)
  {
    hide Libc.LiteralTail;
    ThreeParts(Libc.SignText(x), x.whole, Libc.LiteralTail(x));
  }

  lemma ThreeParts(a: Bytes, b: Bytes, c: Bytes)
    ensures var s := a + b + c;
            && s[|a| + |b|..] == c && (forall i :: 0 <= i < |a| ==> s[i] == a[i])
            && forall i {:trigger s[i]} :: |a| <= i < |a| + |b| ==> s[i] == b[i - |a|]
  {
  }

  lemma LiteralShape(x: Libc.Decimal)
    requires Libc.WellFormed(x)
    ensures NumberShape(Libc.Literal(x)) == Fractional
    ensures Libc.Literal(x) != [] && (Libc.Literal(x)[0] == MINUS || IsDigit(Libc.Literal(x)[0]))
  {
    hide DigitsEnd, AfterWhole, Libc.LiteralTail, Libc.Literal, Libc.WellFormed, Libc.SignText;
    var s, p := Libc.Literal(x), |Libc.SignText(x)|;
    var q := p + |x.whole|;
    LiteralLayout(x);
    TailShape(x, s, q);
    DigitsRun(s, p, q);
  }

  /** After the whole part comes a point or an exponent, and then nothing is left over. */
  lemma TailShape(x: Libc.Decimal, s: Bytes, q: nat)
    requires Libc.WellFormed(x) && q <= |s| && s[q..] == Libc.LiteralTail(x)
    ensures AfterWhole(s, q) == Fractional && q < |s| && !IsDigit(s[q])
  {
    hide AfterFraction, AfterWhole;
    if x.exponent.Some? && x.fraction == [] {
      assert Libc.LiteralTail(x) == ExponentText(x);
      ExponentShape(x, s, q, false);
      NoPoint(s, q);
    } else {
      PointTailShape(x, s, q);
    }
  }

  lemma PointTailShape(x: Libc.Decimal, s: Bytes, q: nat)
    requires Libc.WellFormed(x) && q <= |s| && s[q..] == Libc.LiteralTail(x) && (x.exponent.None? || x.fraction != [])
    ensures AfterWhole(s, q) == Fractional && q < |s| && s[q] == DOT
  {
    hide AfterFraction, AfterWhole, ExponentText;
    var f := if x.fraction == [] then [ZERO] else x.fraction;
    var rest := ExponentText(x);
    PointTail(x, f);
    PointShape(s, q, f, rest);
    assert s[q + 1 + |f|..] == s[q..][1 + |f|..] == rest;
    ExponentShape(x, s, q + 1 + |f|, true);
  }

  lemma PointTail(x: Libc.Decimal, f: Bytes)
    requires x.exponent.None? || x.fraction != []
    requires f == if x.fraction == [] then [ZERO] else x.fraction
    ensures Libc.LiteralTail(x) == [DOT] + f + ExponentText(x)
    ensures ExponentText(x) != [] ==> !IsDigit(ExponentText(x)[0])
  {
  }

  function ExponentText(x: Libc.Decimal): Bytes {
    match x.exponent
    case None => []
    case Some(e) => [101] + (if e.sign == PLUS then [] else [e.sign]) + e.digits
  }

  lemma NoPoint(s: Bytes, q: nat)
    requires q < |s| && s[q] == 101
    ensures AfterWhole(s, q) == AfterFraction(s, q, false)
  {
    hide AfterFraction;
  }

  lemma PointShape(s: Bytes, q: nat, f: Bytes, rest: Bytes)
    requires q <= |s| && s[q..] == [DOT] + f + rest && f != [] && Libc.AllDigits(f)
    requires rest != [] ==> !IsDigit(rest[0])
    ensures q < |s| && s[q] == DOT
    ensures AfterWhole(s, q) == AfterFraction(s, q + 1 + |f|, true)
  {
    hide AfterFraction, DigitsEnd;
    var tail := s[q..];
    assert s[q] == tail[0];
    forall i | q + 1 <= i < q + 1 + |f| ensures IsDigit(s[i]) {
      assert s[i] == tail[i - q] == f[i - q - 1];
    }
    assert rest != [] ==> s[q + 1 + |f|] == tail[1 + |f|] == rest[0];
    DigitsRun(s, q + 1, q + 1 + |f|);
  }

  lemma ExponentShape(x: Libc.Decimal, s: Bytes, q: nat, fractional: bool)
    requires Libc.WellFormed(x) && q <= |s|
    requires s[q..] == ExponentText(x) && (fractional || x.exponent.Some?)
    ensures AfterFraction(s, q, fractional) == Fractional
    ensures x.exponent.Some? ==> q < |s| && s[q] == 101
  {
    hide DigitsEnd;
    if x.exponent.Some? {
      var e := x.exponent.value;
      var rest := s[q..];
      var r := |s| - |e.digits|;
      assert rest[|rest| - |e.digits|..] == e.digits;
      assert s[r..] == e.digits;
      assert forall i :: r <= i < |s| ==> s[i] == s[r..][i - r];
      assert s[q] == rest[0];
      assert s[q + 1] == rest[1];
      DigitsRun(s, r, |s|);
    }
  }

  lemma FloatUndoes(c: Libc.Calls, d: Double)
    requires Libc.Contract(c) && Libc.IsFinite(d)
    ensures KeywordOrNumber(c, FloatText(c, d)) == Some(VFloat(d))
  {
    hide Shortest, NumberShape, Libc.IsFinite, FloatLiteral, Libc.Literal, Libc.Rendered, Libc.WellFormed, KeywordOrNumber;
    var x := ShortestUndoes(c, d, 1);
    LiteralUndoes(x);
    LiteralShape(x);
    NumberNotKeyword(c, Libc.Literal(x));
  }
}
