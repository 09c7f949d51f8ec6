/** Quoted strings: exactly which texts are strings, and of which bytes. */
module HjsonStrings {
  import opened ByteStrings
  import opened Ascii
  import opened HjsonSyntax
  import opened HjsonTokens
  import opened JsonText

  /** A byte that stands for itself, a backslash and a letter, or a backslash, u and four hex digits. */
  datatype Part = Plain(b: Byte) | Short(letter: Byte) | Code(digits: Bytes)

  /** The letters after a backslash, and the bytes they stand for: " ' \ / b f n r t. */
  const SHORTS: map<Byte, Byte> := map[34 := 34, 39 := 39, 92 := 92, 47 := 47, 98 := 8, 102 := 12, 110 := 10, 114 := 13, 116 := 9]

  predicate IsPart(quote: Byte, part: Part) {
    match part
    case Plain(b) => b != quote && b != BACKSLASH && !IsNewline(b)
    case Short(letter) => letter in SHORTS
    case Code(digits) => |digits| == 4 && forall i :: 0 <= i < 4 ==> IsHex(digits[i])
  }

  function PartText(part: Part): Bytes {
    match part
    case Plain(b) => [b]
    case Short(letter) => [BACKSLASH, letter]
    case Code(digits) => [BACKSLASH, 117] + digits
  }

  function HexNumber(digits: Bytes): nat
    requires forall i :: 0 <= i < |digits| ==> IsHex(digits[i])
  {
    if digits == [] then 0 else 16 * HexNumber(digits[..|digits| - 1]) + HexValue(digits[|digits| - 1])
  }

  function PartBytes(quote: Byte, part: Part): Bytes
    requires IsPart(quote, part)
  {
    match part
    case Plain(b) => [b]
    case Short(letter) => [SHORTS[letter]]
    case Code(digits) => FourDigits(digits); Utf8(HexNumber(digits))
  }

  function Texts(parts: seq<Part>): Bytes {
    if parts == [] then [] else PartText(parts[0]) + Texts(parts[1..])
  }

  ghost predicate AreParts(quote: Byte, parts: seq<Part>) {
    forall i :: 0 <= i < |parts| ==> IsPart(quote, parts[i])
  }

  function Content(quote: Byte, parts: seq<Part>): Bytes
    requires AreParts(quote, parts)
  {
    if parts == [] then [] else PartBytes(quote, parts[0]) + Content(quote, parts[1..])
  }

  // ---- Hex digits and UTF-8 ----

  lemma FourDigits(d: Bytes)
    requires |d| == 4 && forall i :: 0 <= i < 4 ==> IsHex(d[i])
    ensures HexNumber(d) == ((HexValue(d[0]) * 16 + HexValue(d[1])) * 16 + HexValue(d[2])) * 16 + HexValue(d[3])
    ensures HexNumber(d) < 0x1_0000
  {
    hide HexValue;
    assert d[..3][..2][..1][..0] == [];
    assert d[..3][..2] == d[..2] && d[..2][..1] == d[..1];
    assert HexNumber(d[..1]) == HexValue(d[0]);
    assert HexNumber(d[..2]) == 16 * HexNumber(d[..1]) + HexValue(d[1]);
    assert HexNumber(d[..3]) == 16 * HexNumber(d[..2]) + HexValue(d[2]);
  }

  /** Digits count from 0 to 9, letters from 10 to 15 in either case. */
  lemma HexDigitsCount(v: nat)
    requires v < 16
    ensures HexValue(HexDigit(v)) == v && (v >= 10 ==> IsHex(HexDigit(v) - 32) && HexValue(HexDigit(v) - 32) == v)
  {
  }

  /** The low bits of a byte. */
  function Low(b: Byte, bits: nat): nat
    requires bits > 0
  {
    b as int % bits
  }

  /** The bytes of a code point below 0x10000 as section 3 of RFC 3629 lays them out. */
  predicate IsUtf8(bs: Bytes, cp: nat) {
    if cp < 0x80 then bs == [cp]
    else if cp < 0x800 then
      |bs| == 2 && bs[0] / 32 == 6 && bs[1] / 64 == 2 && cp == Low(bs[0], 32) * 64 + Low(bs[1], 64)
    else
      && |bs| == 3 && bs[0] / 16 == 14 && bs[1] / 64 == 2 && bs[2] / 64 == 2
      && cp == Low(bs[0], 16) * 4096 + Low(bs[1], 64) * 64 + Low(bs[2], 64)
  }

  lemma EncodesUtf8(cp: nat)
    requires cp < 0x1_0000
    ensures IsUtf8(Utf8(cp), cp)
  {
    if 0x80 <= cp < 0x800 {
      TwoBytes(cp);
    } else if cp >= 0x800 {
      ThreeBytes(cp);
    }
  }

  lemma TwoBytes(cp: nat)
    requires 0x80 <= cp < 0x800
    ensures IsUtf8([0xc0 + cp / 0x40, 0x80 + cp % 0x40], cp)
  {
    var high, low := cp / 0x40, cp % 0x40;
    assert cp == high * 0x40 + low && high < 32 && low < 64;
    assert (0xc0 + high) / 32 == 6 && (0xc0 + high) % 32 == high;
    assert (0x80 + low) / 64 == 2 && (0x80 + low) % 64 == low;
  }

  lemma ThreeBytes(cp: nat)
    requires 0x800 <= cp < 0x1_0000
    ensures IsUtf8([0xe0 + cp / 0x1000, 0x80 + cp / 0x40 % 0x40, 0x80 + cp % 0x40], cp)
  {
    var high, mid, low := cp / 0x1000, cp / 0x40 % 0x40, cp % 0x40;
    assert cp == high * 0x1000 + mid * 0x40 + low && high < 16 && mid < 64 && low < 64;
    assert (0xe0 + high) / 16 == 14 && (0xe0 + high) % 16 == high;
    assert (0x80 + mid) / 64 == 2 && (0x80 + mid) % 64 == mid;
    assert (0x80 + low) / 64 == 2 && (0x80 + low) % 64 == low;
  }

  // ---- One part ----

  /** A part is read as what it stands for. */
  lemma PartReads(t: Bytes, p: nat, quote: Byte, acc: Bytes, part: Part)
    requires IsQuote(quote) && IsPart(quote, part) && At(t, p, PartText(part))
    ensures QuotedFrom(t, p, quote, acc) == QuotedFrom(t, p + |PartText(part)|, quote, acc + PartBytes(quote, part))
  {
    hide Utf8, HexNumber;
    AtByte(t, p, PartText(part), 0);
    match part
    case Plain(b) =>
    case Short(letter) => AtByte(t, p, PartText(part), 1);
    case Code(digits) =>
      AtByte(t, p, PartText(part), 1);
      AtByte(t, p, PartText(part), 2);
      AtByte(t, p, PartText(part), 3);
      AtByte(t, p, PartText(part), 4);
      AtByte(t, p, PartText(part), 5);
      FourDigits(digits);
  }

  lemma QuoteEnds(t: Bytes, p: nat, quote: Byte, acc: Bytes)
    requires At(t, p, [quote])
    ensures QuotedFrom(t, p, quote, acc) == TextTo(acc, p + 1)
  {
    AtByte(t, p, [quote], 0);
  }

  lemma {:induction false} PartsRead(t: Bytes, p: nat, quote: Byte, acc: Bytes, parts: seq<Part>)
    requires IsQuote(quote) && AreParts(quote, parts) && At(t, p, Texts(parts) + [quote])
    ensures QuotedFrom(t, p, quote, acc) == TextTo(acc + Content(quote, parts), p + |Texts(parts)| + 1)
    decreases |parts|
  {
    hide QuotedFrom, At, IsPart, PartText, PartBytes;
    if parts == [] {
      assert Texts(parts) + [quote] == [quote];
      QuoteEnds(t, p, quote, acc);
      assert acc + Content(quote, parts) == acc;
    } else {
      var first, rest := PartText(parts[0]), parts[1..];
      assert Texts(parts) + [quote] == first + (Texts(rest) + [quote]);
      AtConcat(t, p, first, Texts(rest) + [quote]);
      PartReads(t, p, quote, acc, parts[0]);
      PartsRead(t, p + |first|, quote, acc + PartBytes(quote, parts[0]), rest);
      assert acc + Content(quote, parts) == acc + PartBytes(quote, parts[0]) + Content(quote, rest);
    }
  }

  lemma EscapeFound(t: Bytes, p: nat, quote: Byte) returns (part: Part)
    requires p < |t| && t[p] == BACKSLASH && Escape(t, p + 1).TextTo?
    ensures IsPart(quote, part) && At(t, p, PartText(part))
  {
    hide Utf8;
    if t[p + 1] == 117 {
      part := Code(t[p + 2..p + 6]);
      assert t[p..p + 6] == [BACKSLASH, 117] + t[p + 2..p + 6];
    } else {
      part := Short(t[p + 1]);
      assert t[p..p + 2] == [BACKSLASH, t[p + 1]];
    }
  }

  /** Whatever is read is made of parts. */
  lemma PartFound(t: Bytes, p: nat, quote: Byte, acc: Bytes) returns (part: Part)
    requires IsQuote(quote) && p < |t| && t[p] != quote && QuotedFrom(t, p, quote, acc).TextTo?
    ensures IsPart(quote, part) && At(t, p, PartText(part))
  {
    hide Escape;
    if t[p] == BACKSLASH {
      part := EscapeFound(t, p, quote);
    } else {
      part := Plain(t[p]);
      assert t[p..p + 1] == [t[p]];
    }
  }

  lemma {:induction false} PartsFound(t: Bytes, p: nat, quote: Byte, acc: Bytes) returns (parts: seq<Part>)
    requires IsQuote(quote) && p <= |t| && QuotedFrom(t, p, quote, acc).TextTo?
    ensures AreParts(quote, parts) && At(t, p, Texts(parts) + [quote])
    decreases |t| - p
  {
    hide QuotedFrom, At, IsPart, PartText, PartBytes, Texts, IsQuote;
    if t[p] == quote {
      parts := [];
      OnlyQuote(t, p);
    } else {
      var part := PartFound(t, p, quote, acc);
      PartReads(t, p, quote, acc, part);
      PartSize(part);
      var rest := PartsFound(t, p + |PartText(part)|, quote, acc + PartBytes(quote, part));
      parts := [part] + rest;
      AtConcat(t, p, PartText(part), Texts(rest) + [quote]);
      OnePartMore(part, rest, quote);
    }
  }

  lemma OnlyQuote(t: Bytes, p: nat)
    requires p < |t|
    ensures At(t, p, Texts([]) + [t[p]])
  {
    assert t[p..p + 1] == [t[p]];
    assert Texts([]) + [t[p]] == [t[p]];
  }

  lemma OnePartMore(part: Part, rest: seq<Part>, quote: Byte)
    ensures Texts([part] + rest) + [quote] == PartText(part) + (Texts(rest) + [quote])
  {
    hide PartText;
    assert ([part] + rest)[1..] == rest;
  }

  lemma PartSize(part: Part)
    ensures |PartText(part)| > 0
  {
  }

  /** The text from p to q is a string with that content. */
  ghost predicate IsString(t: Bytes, p: nat, q: nat, s: Bytes) {
    && p < q <= |t| && IsQuote(t[p])
    && exists parts :: AreParts(t[p], parts) && t[p..q] == [t[p]] + Texts(parts) + [t[p]] && s == Content(t[p], parts)
  }

  /** Outside three-apostrophe strings, what is read from a quote on is exactly the string that stands there. */
  lemma StringsExactly(t: Bytes, p: nat, multiline: bool, s: Bytes, q: nat)
    requires p < |t| && IsQuote(t[p]) && !(multiline && TripleAt(t, p))
    ensures Quoted(t, p, multiline) == TextTo(s, q) <==> IsString(t, p, q, s)
  {
    hide QuotedFrom, IsPart, PartText, PartBytes, AreParts, Texts, Content;
    var quote := t[p];
    EmptyString(t, p);
    if Quoted(t, p, multiline) == TextTo(s, q) {
      var parts := PartsFound(t, p + 1, quote, []);
      PartsRead(t, p + 1, quote, [], parts);
      Enclosed(t, p, parts);
      assert [] + Content(quote, parts) == Content(quote, parts);
    }
    if IsString(t, p, q, s) {
      var parts :| AreParts(quote, parts) && t[p..q] == [quote] + Texts(parts) + [quote] && s == Content(quote, parts);
      assert [quote] + Texts(parts) + [quote] == [quote] + (Texts(parts) + [quote]);
      assert q == p + |[quote] + (Texts(parts) + [quote])|;
      AtConcat(t, p, [quote], Texts(parts) + [quote]);
      PartsRead(t, p + 1, quote, [], parts);
      assert [] + Content(quote, parts) == Content(quote, parts);
    }
  }

  lemma EmptyString(t: Bytes, p: nat)
    requires p < |t| && IsQuote(t[p])
    ensures At(t, p, [APOSTROPHE, APOSTROPHE]) ==> QuotedFrom(t, p + 1, t[p], []) == TextTo([], p + 2)
  {
    if At(t, p, [APOSTROPHE, APOSTROPHE]) {
      AtByte(t, p, [APOSTROPHE, APOSTROPHE], 0);
      AtByte(t, p, [APOSTROPHE, APOSTROPHE], 1);
    }
  }

  lemma Enclosed(t: Bytes, p: nat, parts: seq<Part>)
    requires p < |t| && At(t, p + 1, Texts(parts) + [t[p]])
    ensures t[p..p + |Texts(parts)| + 2] == [t[p]] + Texts(parts) + [t[p]]
  {
    hide Texts;
    var text := Texts(parts) + [t[p]];
    assert t[p..p + 1 + |text|] == [t[p]] + t[p + 1..p + 1 + |text|];
  }
}
