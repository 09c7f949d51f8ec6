/** What the HJSON parser accepts and what it makes of it (src/hjson/hjson_parse.cpp), as functions
    of the text and a position. */
module HjsonSyntax {
  import opened ByteStrings
  import opened DataNodes
  import opened Ascii
  import opened HjsonScanners
  import Libc

  const MAX_DEPTH: nat := 256

  // ---- Whitespace, comments, separators ----

  function AfterLine(t: Bytes, p: nat): (r: nat)
    requires p <= |t|
    ensures p <= r <= |t|
  {
    var nl := FirstHit(Newline, t, p, |t|);
    if nl < |t| then nl + 1 else nl
  }

  function AfterBlock(t: Bytes, p: nat): (r: nat)
    requires p <= |t|
    ensures p <= r <= |t|
    decreases |t| - p
  {
    if p + 1 >= |t| then p
    else
      var star := FirstHit(Exactly(STAR), t, p, |t|);
      if star + 1 < |t| && t[star + 1] == SLASH then star + 2
      else if star < |t| then AfterBlock(t, star + 1)
      else star
  }

  function SkipWs(t: Bytes, p: nat): (r: nat)
    requires p <= |t|
    ensures p <= r <= |t|
    decreases |t| - p
  {
    var q := FirstHit(NotSpace, t, p, |t|);
    if q == |t| then q
    else if t[q] == HASH then SkipWs(t, AfterLine(t, q + 1))
    else if t[q] == SLASH && q + 1 < |t| && t[q + 1] == SLASH then SkipWs(t, AfterLine(t, q + 2))
    else if t[q] == SLASH && q + 1 < |t| && t[q + 1] == STAR then SkipWs(t, AfterBlock(t, q + 2))
    else q
  }

  function SkipSeparator(t: Bytes, p: nat): (r: nat)
    requires p <= |t|
    ensures p <= r <= |t|
  {
    var q := SkipWs(t, p);
    if q < |t| && t[q] == COMMA then SkipWs(t, q + 1) else q
  }

  // ---- Quoted strings ----

  datatype Text = NoText | TextTo(s: Bytes, next: nat)

  predicate IsHex(c: Byte) {
    IsDigit(c) || 97 <= c <= 102 || 65 <= c <= 70
  }

  function HexValue(c: Byte): (v: nat)
    requires IsHex(c)
    ensures v < 16
  {
    if IsDigit(c) then c - ZERO else if c >= 97 then c - 87 else c - 55
  }

  /** The bytes of a code point of at most four hex digits. */
  function Utf8(cp: nat): Bytes
    requires cp < 0x1_0000
  {
    if cp < 0x80 then [cp]
    else if cp < 0x800 then [0xc0 + cp / 0x40, 0x80 + cp % 0x40]
    else [0xe0 + cp / 0x1000, 0x80 + cp / 0x40 % 0x40, 0x80 + cp % 0x40]
  }

  /** What follows a backslash: the bytes it stands for. */
  function Escape(t: Bytes, p: nat): (r: Text)
    requires p <= |t|
    ensures r.TextTo? ==> p < r.next <= |t|
  {
    if p == |t| then NoText
    else
      var c := t[p];
      if c == QUOTE || c == APOSTROPHE || c == BACKSLASH || c == SLASH then TextTo([c], p + 1)
      else if c == 98 then TextTo([8], p + 1)
      else if c == 102 then TextTo([12], p + 1)
      else if c == 110 then TextTo([LF], p + 1)
      else if c == 114 then TextTo([CR], p + 1)
      else if c == 116 then TextTo([TAB], p + 1)
      else if c == 117 then UnicodeEscape(t, p + 1)
      else NoText
  }

  function UnicodeEscape(t: Bytes, p: nat): (r: Text)
    ensures r.TextTo? ==> p < r.next <= |t|
  {
    if p + 4 <= |t| && IsHex(t[p]) && IsHex(t[p + 1]) && IsHex(t[p + 2]) && IsHex(t[p + 3]) then
      var cp := ((HexValue(t[p]) * 16 + HexValue(t[p + 1])) * 16 + HexValue(t[p + 2])) * 16 + HexValue(t[p + 3]);
      TextTo(Utf8(cp), p + 4)
    else NoText
  }

  /** The rest of a quoted string, one byte at a time. */
  function QuotedFrom(t: Bytes, p: nat, quote: Byte, acc: Bytes): (r: Text)
    requires p <= |t|
    ensures r.TextTo? ==> p < r.next <= |t|
    decreases |t| - p
  {
    if p == |t| then NoText
    else if t[p] == quote then TextTo(acc, p + 1)
    else if IsNewline(t[p]) then NoText
    else if t[p] == BACKSLASH then
      var e := Escape(t, p + 1);
      if e.NoText? then NoText else QuotedFrom(t, e.next, quote, acc + e.s)
    else QuotedFrom(t, p + 1, quote, acc + [t[p]])
  }

  predicate IsQuote(c: Byte) { c == QUOTE || c == APOSTROPHE }

  predicate TripleAt(t: Bytes, p: nat) {
    At(t, p, [APOSTROPHE, APOSTROPHE, APOSTROPHE])
  }

  /** A blank inside a line. Bytes from 128 on are negative as chars and so are none. */
  predicate LineBlankAt(t: Bytes, p: nat) {
    p < |t| && 0 < t[p] <= SPACE && t[p] != LF
  }

  /** How far into its line position p is. */
  function Column(t: Bytes, p: nat): nat
    requires p <= |t|
  {
    if p == 0 || t[p - 1] == LF || t[p - 1] == 0 then 0 else 1 + Column(t, p - 1)
  }

  /** Past the blanks at p, but at most `most` of them. */
  function SkipIndent(t: Bytes, p: nat, most: nat): (r: nat)
    requires p <= |t|
    ensures p <= r <= |t|
    decreases most
  {
    if most > 0 && LineBlankAt(t, p) then SkipIndent(t, p + 1, most - 1) else p
  }

  /** Where the text of a three-apostrophe string begins: after blanks, on the next line if there is
      nothing else on this one. */
  function MultilineStart(t: Bytes, p: nat, indent: nat): (r: nat)
    requires p <= |t|
    ensures p <= r <= |t|
  {
    var q := SkipIndent(t, p, |t|);
    if q < |t| && t[q] == LF then SkipIndent(t, q + 1, indent) else q
  }

  function Apostrophes(n: nat): (r: Bytes)
    ensures |r| == n
  {
    seq(n, _ => APOSTROPHE)
  }

  /** The rest of a three-apostrophe string. Lines lose their indentation, carriage returns go, `seen`
      apostrophes may be the beginning of the end, and a newline right before the end is dropped. */
  function MultilineFrom(t: Bytes, p: nat, indent: nat, acc: Bytes, seen: nat, lastLf: bool): (r: Text)
    requires p <= |t| && seen < 3
    ensures r.TextTo? ==> p < r.next <= |t|
    decreases |t| - p
  {
    if p == |t| then NoText
    else if t[p] == APOSTROPHE then
      if seen < 2 then MultilineFrom(t, p + 1, indent, acc, seen + 1, lastLf)
      else TextTo(if lastLf && acc != [] && acc[|acc| - 1] == LF then acc[..|acc| - 1] else acc, p + 1)
    else
      var out := acc + Apostrophes(seen);
      if t[p] == LF then MultilineFrom(t, SkipIndent(t, p + 1, indent), indent, out + [LF], 0, true)
      else if t[p] == CR then MultilineFrom(t, p + 1, indent, out, 0, lastLf && seen == 0)
      else MultilineFrom(t, p + 1, indent, out + [t[p]], 0, false)
  }

  /** A three-apostrophe string whose first apostrophe stands at p. */
  function Multiline(t: Bytes, p: nat): (r: Text)
    requires p + 3 <= |t|
    ensures r.TextTo? ==> p < r.next <= |t|
  {
    var indent := Column(t, p);
    MultilineFrom(t, MultilineStart(t, p + 3, indent), indent, [], 0, false)
  }

  /** A string that starts with a quote at p. */
  function Quoted(t: Bytes, p: nat, multiline: bool): (r: Text)
    requires p < |t|
    ensures r.TextTo? ==> p < r.next <= |t|
  {
    if !IsQuote(t[p]) then NoText
    else if multiline && TripleAt(t, p) then Multiline(t, p)
    else if At(t, p, [APOSTROPHE, APOSTROPHE]) then TextTo([], p + 2)
    else QuotedFrom(t, p + 1, t[p], [])
  }

  // ---- Keys ----

  /** An unquoted key ends at a colon; it may be followed but not interrupted by blanks.
      Bytes from 128 on are negative as chars and so count as blanks. */
  function UnquotedKey(t: Bytes, p: nat, start: nat, end: nat, blank: Option<nat>): (r: Text)
    requires start <= end <= p <= |t|
    ensures r.TextTo? ==> p <= r.next <= |t|
    decreases |t| - p
  {
    if p == |t| then NoText
    else if t[p] == COLON then
      if end == start || (blank.Some? && blank.value != end) then NoText else TextTo(t[start..end], p)
    else if t[p] <= SPACE || t[p] >= 128 then
      if t[p] == 0 then NoText
      else UnquotedKey(t, p + 1, start, end, if blank.None? then Some(p) else blank)
    else if IsPunctuator(t[p]) then NoText
    else UnquotedKey(t, p + 1, start, p + 1, blank)
  }

  function Key(t: Bytes, p: nat): (r: Text)
    requires p < |t|
    ensures r.TextTo? ==> p <= r.next <= |t|
  {
    if !IsQuote(t[p]) then UnquotedKey(t, p, p, p, None)
    else if TripleAt(t, p) then NoText
    else Quoted(t, p, false)
  }

  // ---- Keywords and numbers ----

  function DigitsEnd(s: Bytes, p: nat): (r: nat)
    requires p <= |s|
    ensures p <= r <= |s|
    decreases |s| - p
  {
    if p < |s| && IsDigit(s[p]) then DigitsEnd(s, p + 1) else p
  }

  predicate DigitAt(s: Bytes, p: nat) {
    p < |s| && IsDigit(s[p])
  }

  datatype Shape = NotANumber | Whole | Fractional

  /** Whether all of s is a JSON number, and of which kind. */
  function NumberShape(s: Bytes): Shape {
    var p := if s != [] && s[0] == MINUS then 1 else 0;
    if !DigitAt(s, p) || (s[p] == ZERO && DigitAt(s, p + 1)) then NotANumber
    else AfterWhole(s, DigitsEnd(s, p))
  }

  function AfterWhole(s: Bytes, p: nat): Shape
    requires p <= |s|
  {
    if p < |s| && s[p] == DOT then
      if DigitAt(s, p + 1) then AfterFraction(s, DigitsEnd(s, p + 1), true) else NotANumber
    else AfterFraction(s, p, false)
  }

  function AfterFraction(s: Bytes, p: nat, fractional: bool): Shape
    requires p <= |s|
  {
    if p < |s| && IsExp(s[p]) then
      var q := if p + 1 < |s| && (s[p + 1] == PLUS || s[p + 1] == MINUS) then p + 2 else p + 1;
      if DigitAt(s, q) && DigitsEnd(s, q) == |s| then Fractional else NotANumber
    else if p < |s| then NotANumber
    else if fractional then Fractional
    else Whole
  }

  function DigitsValue(s: Bytes): int {
    if s == [] then 0 else 10 * DigitsValue(s[..|s| - 1]) + (s[|s| - 1] as int - 48)
  }

  function WholeValue(s: Bytes): int {
    if s != [] && s[0] == MINUS then -DigitsValue(s[1..]) else DigitsValue(s)
  }

  predicate InInt64(i: int) {
    -0x8000_0000_0000_0000 <= i < 0x8000_0000_0000_0000
  }

  /** Whole numbers are Ints while they fit; whatever strtod makes infinite is not a number. */
  function Number(c: Libc.Calls, s: Bytes): (r: Option<Value>) {
    match NumberShape(s)
    case NotANumber => None
    case Fractional => Floating(c, s)
    case Whole => if InInt64(WholeValue(s)) then Some(VInt(WholeValue(s))) else Floating(c, s)
  }

  function Floating(c: Libc.Calls, s: Bytes): Option<Value> {
    if Libc.IsFinite(c.strtod(s)) then Some(VFloat(c.strtod(s))) else None
  }

  function KeywordOrNumber(c: Libc.Calls, s: Bytes): (r: Option<Value>)
    ensures r.Some? ==> s != []
  {
    if s == [] then None
    else if s == TRUE_TEXT then Some(VBool(true))
    else if s == FALSE_TEXT then Some(VBool(false))
    else if s == NULL_TEXT then Some(VNull)
    else if s[0] == MINUS || IsDigit(s[0]) then Number(c, s)
    else None
  }

  // ---- Values ----

  datatype Parsed = Bad | Good(value: Value, next: nat)

  predicate CommentAt(t: Bytes, p: nat)
    requires p < |t|
  {
    t[p] == HASH || (t[p] == SLASH && p + 1 < |t| && (t[p + 1] == SLASH || t[p + 1] == STAR))
  }

  predicate BreakAt(t: Bytes, p: nat)
    requires p < |t|
  {
    t[p] == COMMA || t[p] == RBRACE || t[p] == RBRACKET || CommentAt(t, p)
  }

  /** An unquoted value runs to the end of its line, or to a break before which it is a keyword or a
      number; `end` is where its last visible byte ends. */
  function UnquotedFrom(c: Libc.Calls, t: Bytes, p: nat, start: nat, end: nat): (r: Parsed)
    requires start <= end <= p <= |t|
    ensures r.Good? ==> start < r.next <= |t|
    decreases |t| - p
  {
    var here := KeywordOrNumber(c, t[start..end]);
    if p == |t| || IsNewline(t[p]) then
      if end == start then Bad
      else if here.Some? then Good(here.value, p)
      else Good(VStr(t[start..end]), p)
    else if BreakAt(t, p) && here.Some? then Good(here.value, p)
    else UnquotedFrom(c, t, p + 1, start, if t[p] > SPACE then p + 1 else end)
  }

  /** There is a visible byte on the line from p on. */
  predicate VisibleNext(t: Bytes, p: nat)
    requires p <= |t|
    decreases |t| - p
  {
    p < |t| && !IsNewline(t[p]) && (t[p] > SPACE || VisibleNext(t, p + 1))
  }

  /** A control byte in front of a value is not part of it. Where nothing visible follows it on its line
      the code's length of the value is below zero; here that is failure. */
  function Unquoted(c: Libc.Calls, t: Bytes, p: nat): (r: Parsed)
    requires p < |t|
    ensures r.Good? ==> p < r.next <= |t|
  {
    if IsPunctuator(t[p]) then Bad
    else if 0 < t[p] <= SPACE then if VisibleNext(t, p) then UnquotedFrom(c, t, p + 1, p + 1, p + 1) else Bad
    else UnquotedFrom(c, t, p, p, p)
  }

  function ParseValue(c: Libc.Calls, t: Bytes, p: nat, depth: nat): (r: Parsed)
    requires p <= |t|
    ensures r.Good? ==> p < r.next <= |t|
    decreases |t| - p, 1
  {
    if depth > MAX_DEPTH then Bad
    else
      var q := SkipWs(t, p);
      if q == |t| then Bad
      else if t[q] == LBRACE then ParseFields(c, t, SkipWs(t, q + 1), depth, true, map[])
      else if t[q] == LBRACKET then ParseElems(c, t, SkipWs(t, q + 1), depth, [])
      else if IsQuote(t[q]) then
        var s := Quoted(t, q, true);
        if s.NoText? then Bad else Good(VStr(s.s), s.next)
      else Unquoted(c, t, q)
  }

  /** The members of an object, from a position where no blanks are left to skip. */
  function ParseFields(c: Libc.Calls, t: Bytes, p: nat, depth: nat, braced: bool, acc: map<Bytes, Value>): (r: Parsed)
    requires p <= |t|
    ensures r.Good? ==> p <= r.next <= |t|
    decreases |t| - p, 2
  {
    if p < |t| && !(braced && t[p] == RBRACE) then
      var key := Key(t, p);
      if key.NoText? then Bad
      else
        var q := SkipWs(t, key.next);
        if q == |t| || t[q] != COLON then Bad
        else
          var v := ParseValue(c, t, SkipWs(t, q + 1), depth + 1);
          if v.Bad? then Bad
          else ParseFields(c, t, SkipSeparator(t, v.next), depth, braced, acc[key.s := v.value])
    else if !braced then Good(VObject(acc), p)
    else if p == |t| then Bad
    else Good(VObject(acc), p + 1)
  }

  function ParseElems(c: Libc.Calls, t: Bytes, p: nat, depth: nat, acc: seq<Value>): (r: Parsed)
    requires p <= |t|
    ensures r.Good? ==> p <= r.next <= |t|
    decreases |t| - p, 2
  {
    if p == |t| then Bad
    else if t[p] == RBRACKET then Good(VArray(acc), p + 1)
    else
      var v := ParseValue(c, t, p, depth + 1);
      if v.Bad? then Bad
      else ParseElems(c, t, SkipSeparator(t, v.next), depth, acc + [v.value])
  }

  function OnlyBlanksAfter(t: Bytes, r: Parsed): Option<Value>
    requires r.Good? ==> r.next <= |t|
  {
    if r.Good? && SkipWs(t, r.next) == |t| then Some(r.value) else None
  }

  /** A whole text: a bracketed value, an object without braces, or failing that a single value. */
  function Parse(c: Libc.Calls, t: Bytes): Option<Value> {
    var p := SkipWs(t, 0);
    if p == |t| then None
    else if t[p] == LBRACE || t[p] == LBRACKET then OnlyBlanksAfter(t, ParseValue(c, t, p, 0))
    else
      var members := OnlyBlanksAfter(t, ParseFields(c, t, p, 0, false, map[]));
      if members.Some? then members else OnlyBlanksAfter(t, ParseValue(c, t, p, 0))
  }
}
