/** The HJSON parser as the code runs it: a position moves over a padded copy of the text, blanks and
    string runs are taken in bulk by the scanners, and the result is what HjsonSyntax says. */
module HjsonReader {
  import opened ByteStrings
  import opened DataNodes
  import opened Ascii
  import opened HjsonScanners
  import opened HjsonSyntax
  import Libc

  /** Taking a run without quotes, backslashes and newlines at once is taking it byte by byte. */
  lemma {:induction false} RunAtOnce(t: Bytes, p: nat, quote: Byte, acc: Bytes)
    requires p <= |t|
    ensures var r := FirstHit(QuoteOrSpecial(quote), t, p, |t|);
            QuotedFrom(t, p, quote, acc) == QuotedFrom(t, r, quote, acc + t[p..r])
    decreases |t| - p
  {
    var r := FirstHit(QuoteOrSpecial(quote), t, p, |t|);
    if p == r {
      assert acc + t[p..r] == acc;
    } else {
      RunAtOnce(t, p + 1, quote, acc + [t[p]]);
      assert acc + [t[p]] + t[p + 1..r] == acc + t[p..r];
    }
  }

  lemma {:induction false} FirstHitStops(stop: Stop, t: Bytes, p: nat)
    requires p <= |t|
    ensures var r := FirstHit(stop, t, p, |t|); r < |t| ==> Hits(stop, t[r])
    decreases |t| - p
  {
    hide Hits;
    if p < |t| && !Hits(stop, t[p]) {
      FirstHitStops(stop, t, p + 1);
    }
  }

  class Reader {
    const data: Bytes
    const buf: Bytes
    const vector: bool
    const libc: Libc.Calls
    var pos: nat

    ghost predicate Valid()
      reads this
    {
      pos <= |data| && buf == data + seq(PADDING, _ => 0)
    }

    constructor (data: Bytes, vector: bool, libc: Libc.Calls)
      ensures Valid() && this.data == data && this.libc == libc && pos == 0
    {
      this.data := data;
      this.buf := data + seq(PADDING, _ => 0);
      this.vector := vector;
      this.libc := libc;
      pos := 0;
    }

    /** Moves to the first stop, or to the end. */
    method Advance(stop: Stop)
      requires Valid()
      modifies this
      ensures Valid() && pos == FirstHit(stop, data, old(pos), |data|)
    {
      hide FirstHit;
      var r := Scan(vector, stop, buf, pos, |data|);
      FirstHitPadded(stop, data, seq(PADDING, _ => 0), pos);
      pos := r;
    }

    method SkipLine()
      requires Valid()
      modifies this
      ensures Valid() && pos == AfterLine(data, old(pos))
    {
      hide FirstHit;
      Advance(Newline);
      if pos < |data| { pos := pos + 1; }
    }

    method SkipBlock()
      requires Valid()
      modifies this
      ensures Valid() && pos == AfterBlock(data, old(pos))
    {
      hide FirstHit;
      while pos + 1 < |data|
        invariant Valid()
        invariant AfterBlock(data, pos) == AfterBlock(data, old(pos))
        decreases |data| - pos
      {
        FirstHitStops(Exactly(STAR), data, pos);
        Advance(Exactly(STAR));
        if pos + 1 < |data| && data[pos] == STAR && data[pos + 1] == SLASH {
          pos := pos + 2;
          return;
        }
        if pos < |data| { pos := pos + 1; }
      }
    }

    /** Blanks in bulk, then a comment if there is one, until neither is left. */
    method SkipBlanks()
      requires Valid()
      modifies this
      ensures Valid() && pos == SkipWs(data, old(pos))
    {
      hide FirstHit, AfterLine, AfterBlock;
      while pos < |data|
        invariant Valid()
        invariant SkipWs(data, pos) == SkipWs(data, old(pos))
        decreases |data| - pos
      {
        Advance(NotSpace);
        if pos >= |data| { return; }
        var c := data[pos];
        if c == HASH {
          pos := pos + 1;
          SkipLine();
        } else if c == SLASH && pos + 1 < |data| && data[pos + 1] == SLASH {
          pos := pos + 2;
          SkipLine();
        } else if c == SLASH && pos + 1 < |data| && data[pos + 1] == STAR {
          pos := pos + 2;
          SkipBlock();
        } else {
          return;
        }
      }
      AtTheEnd();
    }

    lemma AtTheEnd()
      ensures SkipWs(data, |data|) == |data|
    {
    }

    method SkipItemEnd()
      requires Valid()
      modifies this
      ensures Valid() && pos == SkipSeparator(data, old(pos))
    {
      hide SkipWs;
      SkipBlanks();
      if pos < |data| && data[pos] == COMMA {
        pos := pos + 1;
        SkipBlanks();
      }
    }

    ghost predicate TextAgrees(spec: Text, r: Option<Bytes>)
      reads this
    {
      if spec.NoText? then r.None? else r == Some(spec.s) && pos == spec.next
    }

    method ReadUnicodeEscape() returns (r: Option<Bytes>)
      requires Valid()
      modifies this
      ensures Valid() && TextAgrees(UnicodeEscape(data, old(pos)), r)
    {
      hide Utf8;
      if pos + 4 > |data| { return None; }
      var cp, i := 0, 0;
      while i < 4
        invariant 0 <= i <= 4 && pos == old(pos)
        invariant i == 0 ==> cp == 0
        invariant i >= 1 ==> IsHex(data[pos])
        invariant i >= 2 ==> IsHex(data[pos + 1])
        invariant i >= 3 ==> IsHex(data[pos + 2])
        invariant i == 1 ==> cp == HexValue(data[pos])
        invariant i == 2 ==> cp == HexValue(data[pos]) * 16 + HexValue(data[pos + 1])
        invariant i == 3 ==> cp == (HexValue(data[pos]) * 16 + HexValue(data[pos + 1])) * 16 + HexValue(data[pos + 2])
        invariant i == 4 ==> IsHex(data[pos + 3])
        invariant i == 4 ==>
            cp == ((HexValue(data[pos]) * 16 + HexValue(data[pos + 1])) * 16 + HexValue(data[pos + 2])) * 16 + HexValue(data[pos + 3])
      {
        if !IsHex(data[pos + i]) { return None; }
        cp := cp * 16 + HexValue(data[pos + i]);
        i := i + 1;
      }
      pos := pos + 4;
      r := Some(Utf8(cp));
    }

    method ReadEscape() returns (r: Option<Bytes>)
      requires Valid()
      modifies this
      ensures Valid() && TextAgrees(Escape(data, old(pos)), r)
    {
      hide UnicodeEscape;
      if pos >= |data| { return None; }
      var esc := data[pos];
      pos := pos + 1;
      if esc == QUOTE || esc == APOSTROPHE || esc == BACKSLASH || esc == SLASH { return Some([esc]); }
      if esc == 98 { return Some([8]); }
      if esc == 102 { return Some([12]); }
      if esc == 110 { return Some([LF]); }
      if esc == 114 { return Some([CR]); }
      if esc == 116 { return Some([TAB]); }
      if esc == 117 { r := ReadUnicodeEscape(); return; }
      r := None;
    }

    method ReadQuotedTail(quote: Byte) returns (r: Option<Bytes>)
      requires Valid() && quote != BACKSLASH && !IsNewline(quote)
      modifies this
      ensures Valid() && TextAgrees(QuotedFrom(data, old(pos), quote, []), r)
    {
      hide FirstHit, Escape;
      var out: Bytes := [];
      while pos < |data|
        invariant Valid()
        invariant QuotedFrom(data, pos, quote, out) == QuotedFrom(data, old(pos), quote, [])
        decreases |data| - pos
      {
        RunAtOnce(data, pos, quote, out);
        FirstHitStops(QuoteOrSpecial(quote), data, pos);
        var start := pos;
        Advance(QuoteOrSpecial(quote));
        out := out + data[start..pos];
        if pos >= |data| { break; }
        var c := data[pos];
        pos := pos + 1;
        if c == quote { return Some(out); }
        if IsNewline(c) { return None; }
        var esc := ReadEscape();
        if esc.None? { return None; }
        out := out + esc.value;
      }
      r := None;
    }

    method SkipBlanksInLine(most: nat)
      requires Valid()
      modifies this`pos
      ensures Valid() && pos == SkipIndent(data, old(pos), most)
    {
      var skip := most;
      while skip > 0 && LineBlankAt(data, pos)
        invariant Valid() && SkipIndent(data, pos, skip) == SkipIndent(data, old(pos), most)
        decreases skip
      {
        skip := skip - 1;
        pos := pos + 1;
      }
    }

    method FindColumn(at: nat) returns (indent: nat)
      requires at <= |data|
      ensures indent == Column(data, at)
    {
      indent := 0;
      var i := at;
      while i > 0 && data[i - 1] != LF && data[i - 1] != 0
        invariant 0 <= i <= at && indent + Column(data, i) == Column(data, at)
        decreases i
      {
        indent := indent + 1;
        i := i - 1;
      }
    }

    method SkipToText(indent: nat)
      requires Valid()
      modifies this`pos
      ensures Valid() && pos == MultilineStart(data, old(pos), indent)
    {
      hide SkipIndent;
      SkipBlanksInLine(|data|);
      if pos < |data| && data[pos] == LF {
        pos := pos + 1;
        SkipBlanksInLine(indent);
      }
    }

    /** A three-apostrophe string, from behind its opening apostrophes. */
    method ReadMultilineString() returns (r: Option<Bytes>)
      requires Valid() && 3 <= pos
      modifies this`pos
      ensures Valid() && TextAgrees(Multiline(data, old(pos) - 3), r)
    {
      hide SkipIndent, Column, Apostrophes, MultilineStart;
      var indent := FindColumn(pos - 3);
      SkipToText(indent);
      var out: Bytes, triple, lastLf := [], 0, false;
      ghost var spec := Multiline(data, old(pos) - 3);
      while pos < |data|
        invariant Valid() && 0 <= triple < 3 && MultilineFrom(data, pos, indent, out, triple, lastLf) == spec
        decreases |data| - pos
      {
        var c := data[pos];
        if c == APOSTROPHE {
          triple := triple + 1;
          pos := pos + 1;
          if triple == 3 {
            if lastLf && out != [] && out[|out| - 1] == LF { out := out[..|out| - 1]; }
            return Some(out);
          }
          continue;
        }
        if triple > 0 {
          out := out + Apostrophes(triple);
          triple := 0;
          lastLf := false;
        } else {
          NoApostrophes(out);
        }
        if c == LF {
          out := out + [LF];
          lastLf := true;
          pos := pos + 1;
          SkipBlanksInLine(indent);
        } else if c == CR {
          pos := pos + 1;
        } else {
          out := out + [c];
          lastLf := false;
          pos := pos + 1;
        }
      }
      return None;
    }

    lemma NoApostrophes(out: Bytes)
      ensures out + Apostrophes(0) == out
    {
    }

    /** A quoted string of any of the three kinds. */
    method ReadQuotedString(multiline: bool) returns (r: Option<Bytes>)
      requires Valid() && pos < |data|
      modifies this
      ensures Valid() && TextAgrees(Quoted(data, old(pos), multiline), r)
    {
      hide QuotedFrom, Multiline;
      var quote := data[pos];
      if !IsQuote(quote) { return None; }
      if multiline && TripleAt(data, pos) {
        pos := pos + 3;
        r := ReadMultilineString();
        return;
      }
      if At(data, pos, [APOSTROPHE, APOSTROPHE]) {
        pos := pos + 2;
        return Some([]);
      }
      pos := pos + 1;
      r := ReadQuotedTail(quote);
    }

    method ReadUnquotedKey() returns (r: Option<Bytes>)
      requires Valid()
      modifies this
      ensures Valid() && TextAgrees(UnquotedKey(data, old(pos), old(pos), old(pos), None), r)
    {
      var keyStart, keyEnd := pos, pos;
      var firstSpace: Option<nat> := None;
      while pos < |data|
        invariant Valid() && keyStart <= keyEnd <= pos
        invariant UnquotedKey(data, pos, keyStart, keyEnd, firstSpace) == UnquotedKey(data, old(pos), old(pos), old(pos), None)
        decreases |data| - pos
      {
        var c := data[pos];
        if c == COLON {
          if keyEnd <= keyStart { return None; }
          if firstSpace.Some? && firstSpace.value != keyEnd { return None; }
          return Some(data[keyStart..keyEnd]);
        }
        if c <= SPACE || c >= 128 {
          if c == 0 { return None; }
          if firstSpace.None? { firstSpace := Some(pos); }
          pos := pos + 1;
        } else {
          if IsPunctuator(c) { return None; }
          pos := pos + 1;
          keyEnd := pos;
        }
      }
      r := None;
    }

    method ReadKey() returns (r: Option<Bytes>)
      requires Valid() && pos < |data|
      modifies this
      ensures Valid() && TextAgrees(Key(data, old(pos)), r)
    {
      hide UnquotedKey, Quoted;
      if !IsQuote(data[pos]) {
        r := ReadUnquotedKey();
      } else if TripleAt(data, pos) {
        return None;
      } else {
        r := ReadQuotedString(false);
      }
    }

    ghost predicate Agrees(spec: Parsed, r: Option<Value>)
      reads this
    {
      if spec.Bad? then r.None? else r == Some(spec.value) && pos == spec.next
    }

    method ReadUnquotedValue() returns (r: Option<Value>)
      requires Valid() && pos < |data|
      modifies this
      ensures Valid() && Agrees(Unquoted(libc, data, old(pos)), r)
    {
      hide KeywordOrNumber, BreakAt, VisibleNext;
      var first := data[pos];
      if IsPunctuator(first) { return None; }
      if 0 < first <= SPACE {
        if !VisibleNext(data, pos) { return None; }
        pos := pos + 1;
      }
      var valStart, valEnd := pos, pos;
      ghost var spec := UnquotedFrom(libc, data, pos, pos, pos);
      while pos < |data| && !IsNewline(data[pos])
        invariant Valid() && valStart <= valEnd <= pos
        invariant UnquotedFrom(libc, data, pos, valStart, valEnd) == spec
        decreases |data| - pos
      {
        var c := data[pos];
        if BreakAt(data, pos) {
          var kw := TryParseKeywordOrNumber(libc, data[valStart..valEnd]);
          if kw.Some? { return kw; }
        }
        pos := pos + 1;
        if c > SPACE { valEnd := pos; }
      }
      if valEnd == valStart { return None; }
      var kw := TryParseKeywordOrNumber(libc, data[valStart..valEnd]);
      if kw.Some? { return kw; }
      r := Some(VStr(data[valStart..valEnd]));
    }

    method ReadObject(depth: nat, braced: bool) returns (r: Option<Value>)
      requires Valid()
      modifies this
      ensures Valid() && Agrees(ParseFields(libc, data, SkipWs(data, old(pos)), depth, braced, map[]), r)
      decreases |data| - pos, 3
    {
      hide SkipWs, Key, ParseValue, SkipSeparator;
      var obj: map<Bytes, Value> := map[];
      SkipBlanks();
      while pos < |data| && !(braced && data[pos] == RBRACE)
        invariant Valid() && old(pos) <= pos
        invariant ParseFields(libc, data, pos, depth, braced, obj)
               == ParseFields(libc, data, SkipWs(data, old(pos)), depth, braced, map[])
        decreases |data| - pos
      {
        var key := ReadKey();
        if key.None? { return None; }
        SkipBlanks();
        if pos >= |data| || data[pos] != COLON { return None; }
        pos := pos + 1;
        SkipBlanks();
        var val := ReadValue(depth + 1);
        if val.None? { return None; }
        obj := obj[key.value := val.value];
        SkipItemEnd();
      }
      if braced {
        if pos >= |data| || data[pos] != RBRACE { return None; }
        pos := pos + 1;
      }
      r := Some(VObject(obj));
    }

    method ReadArray(depth: nat) returns (r: Option<Value>)
      requires Valid()
      modifies this
      ensures Valid() && Agrees(ParseElems(libc, data, SkipWs(data, old(pos)), depth, []), r)
      decreases |data| - pos, 3
    {
      hide SkipWs, ParseValue, SkipSeparator;
      var arr: seq<Value> := [];
      SkipBlanks();
      while pos < |data| && data[pos] != RBRACKET
        invariant Valid() && old(pos) <= pos
        invariant ParseElems(libc, data, pos, depth, arr) == ParseElems(libc, data, SkipWs(data, old(pos)), depth, [])
        decreases |data| - pos
      {
        var val := ReadValue(depth + 1);
        if val.None? { return None; }
        arr := arr + [val.value];
        SkipItemEnd();
      }
      if pos >= |data| || data[pos] != RBRACKET { return None; }
      pos := pos + 1;
      r := Some(VArray(arr));
    }

    method ReadValue(depth: nat) returns (r: Option<Value>)
      requires Valid()
      modifies this
      ensures Valid() && Agrees(ParseValue(libc, data, old(pos), depth), r)
      decreases |data| - pos, 2
    {
      hide SkipWs, ParseFields, ParseElems, Quoted, Unquoted;
      if depth > MAX_DEPTH { return None; }
      SkipBlanks();
      if pos >= |data| { return None; }
      var c := data[pos];
      if c == LBRACE {
        pos := pos + 1;
        r := ReadObject(depth, true);
      } else if c == LBRACKET {
        pos := pos + 1;
        r := ReadArray(depth);
      } else if IsQuote(c) {
        var s := ReadQuotedString(true);
        if s.None? { return None; }
        r := Some(VStr(s.value));
      } else {
        r := ReadUnquotedValue();
      }
    }

    /** Nothing but blanks may follow a whole value. */
    method FinishWith(v: Option<Value>) returns (r: Option<Value>)
      requires Valid()
      modifies this
      ensures Valid()
      ensures r == if v.Some? && SkipWs(data, old(pos)) == |data| then v else None
    {
      hide SkipWs;
      if v.None? { return None; }
      SkipBlanks();
      r := if pos >= |data| then v else None;
    }
  }

  method SkipDigits(s: Bytes, from: nat) returns (p: nat)
    requires from <= |s|
    ensures p == DigitsEnd(s, from)
  {
    p := from;
    while p < |s| && IsDigit(s[p])
      invariant from <= p <= |s| && DigitsEnd(s, p) == DigitsEnd(s, from)
    {
      p := p + 1;
    }
  }

  /** The scan of a number and what becomes of its text. */
  method TryParseNumber(libc: Libc.Calls, s: Bytes) returns (r: Option<Value>)
    ensures r == Number(libc, s)
  {
    hide DigitsEnd, WholeValue, Floating, IsDigit, IsExp;
    var p := 0;
    if s != [] && s[0] == MINUS { p := 1; }
    if !DigitAt(s, p) { return None; }
    if s[p] == ZERO && DigitAt(s, p + 1) { return None; }
    p := SkipDigits(s, p);
    var isFloat := false;
    if p < |s| && s[p] == DOT {
      isFloat := true;
      p := p + 1;
      if !DigitAt(s, p) { return None; }
      p := SkipDigits(s, p);
    }
    if p < |s| && IsExp(s[p]) {
      isFloat := true;
      p := p + 1;
      if p < |s| && (s[p] == PLUS || s[p] == MINUS) { p := p + 1; }
      if !DigitAt(s, p) { return None; }
      p := SkipDigits(s, p);
    }
    if p != |s| { return None; }
    if !isFloat && InInt64(WholeValue(s)) { return Some(VInt(WholeValue(s))); }
    r := Floating(libc, s);
  }

  method TryParseKeywordOrNumber(libc: Libc.Calls, s: Bytes) returns (r: Option<Value>)
    ensures r == KeywordOrNumber(libc, s)
  {
    hide Number;
    if s == [] { return None; }
    if s == TRUE_TEXT { return Some(VBool(true)); }
    if s == FALSE_TEXT { return Some(VBool(false)); }
    if s == NULL_TEXT { return Some(VNull); }
    if s[0] == MINUS || IsDigit(s[0]) {
      r := TryParseNumber(libc, s);
    } else {
      r := None;
    }
  }

  /** The whole parser, with either set of scanners. */
  method HjsonParse(libc: Libc.Calls, data: Bytes, vector: bool) returns (r: Option<Value>)
    ensures r == Parse(libc, data)
  {
    hide SkipWs, ParseValue, ParseFields;
    var reader := new Reader(data, vector, libc);
    reader.SkipBlanks();
    if reader.pos >= |data| { return None; }
    var start := reader.pos;
    var c := data[start];
    SkipTwice(data, 0);
    if c != LBRACE && c != LBRACKET {
      var members := reader.ReadObject(0, false);
      r := reader.FinishWith(members);
      if r.Some? { return; }
      reader.pos := 0;
      reader.SkipBlanks();
    }
    var val := reader.ReadValue(0);
    r := reader.FinishWith(val);
  }

  lemma {:induction false} SkipTwice(t: Bytes, p: nat)
    requires p <= |t|
    ensures SkipWs(t, SkipWs(t, p)) == SkipWs(t, p)
    decreases |t| - p
  {
    hide FirstHit, AfterLine, AfterBlock;
    var q := FirstHit(NotSpace, t, p, |t|);
    FirstHitStops(NotSpace, t, p);
    if q < |t| && t[q] == HASH {
      SkipTwice(t, AfterLine(t, q + 1));
    } else if q < |t| && t[q] == SLASH && q + 1 < |t| && t[q + 1] == SLASH {
      SkipTwice(t, AfterLine(t, q + 2));
    } else if q < |t| && t[q] == SLASH && q + 1 < |t| && t[q + 1] == STAR {
      SkipTwice(t, AfterBlock(t, q + 2));
    } else {
      FirstHitIs(NotSpace, t, q, |t|, q);
    }
  }
}
