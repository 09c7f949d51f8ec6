/** The HJSON parser undoes the JSON printer: for every tree, in any iteration order of its maps,
    compact or indented, the text parses to the tree the printer shows. */
module HjsonRoundTrip {
  import opened ByteStrings
  import opened DataNodes
  import opened Ascii
  import opened HjsonScanners
  import opened HjsonSyntax
  import opened JsonText
  import opened HjsonTokens
  import Libc

  // ---- Keywords and numbers as tokens ----

  predicate TokenByte(c: Byte) {
    IsDigit(c) || c == MINUS || c == DOT || 97 <= c <= 122
  }

  predicate TokenBytes(w: Bytes) {
    forall i :: 0 <= i < |w| ==> TokenByte(w[i])
  }

  predicate IsToken(w: Bytes) {
    w != [] && TokenBytes(w)
  }

  lemma TokenBytesConcat(a: Bytes, b: Bytes)
    requires TokenBytes(a) && TokenBytes(b)
    ensures TokenBytes(a + b)
  {
    hide TokenByte;
  }

  lemma IntIsToken(i: Int64)
    ensures IsToken(IntText(i))
  {
    hide Digits;
    DigitsAre(if i < 0 then -(i as int) else i);
  }

  lemma LiteralIsToken(x: Libc.Decimal)
    requires Libc.WellFormed(x)
    ensures IsToken(Libc.Literal(x))
  {
    hide Mantissa, Libc.Literal, Libc.Rendered, TokenBytes;
    MantissaBytes(x);
    MantissaSize(x);
    LiteralParts(x);
    var m := Mantissa(x);
    if x.exponent.Some? {
      var e := x.exponent.value;
      var sign := if e.sign == PLUS then [] else [e.sign];
      PartsAreTokens(x);
      TokenBytesConcat(m, [101]);
      TokenBytesConcat(m + [101], sign);
      TokenBytesConcat(m + [101] + sign, e.digits);
    } else {
      PartsAreTokens(x);
      TokenBytesConcat(m, if x.fraction == [] then [DOT, ZERO] else []);
    }
  }

  lemma PartsAreTokens(x: Libc.Decimal)
    requires Libc.WellFormed(x) && IsMantissa(Mantissa(x))
    ensures TokenBytes(Mantissa(x)) && TokenBytes([101]) && TokenBytes([DOT, ZERO]) && TokenBytes([]) && TokenBytes([MINUS])
    ensures x.exponent.Some? ==> TokenBytes(x.exponent.value.digits)
  {
    hide Mantissa;
  }

  lemma MantissaSize(x: Libc.Decimal)
    requires Libc.WellFormed(x)
    ensures Mantissa(x) != []
  {
  }

  lemma FloatIsToken(c: Libc.Calls, d: Double)
    requires Libc.Contract(c) && Libc.IsFinite(d)
    ensures IsToken(FloatText(c, d))
  {
    hide Shortest, Libc.IsFinite, FloatLiteral, Libc.Literal, Libc.Rendered, Libc.WellFormed, IsToken;
    var x := ShortestUndoes(c, d, 1);
    LiteralUndoes(x);
    LiteralIsToken(x);
  }

  /** What is printed for a leaf that is not a string. */
  predicate PrintsToken(n: Node, depth: nat) {
    depth > JsonText.MAX_DEPTH || !(n.Str? || n.Array? || n.Object?)
  }

  lemma KeywordsAre(c: Libc.Calls)
    ensures IsToken(NULL_TEXT) && IsToken(TRUE_TEXT) && IsToken(FALSE_TEXT)
    ensures KeywordOrNumber(c, NULL_TEXT) == Some(VNull)
    ensures KeywordOrNumber(c, TRUE_TEXT) == Some(VBool(true))
    ensures KeywordOrNumber(c, FALSE_TEXT) == Some(VBool(false))
  {
    hide Number;
    assert TRUE_TEXT[0] == 116 && FALSE_TEXT[0] == 102 && NULL_TEXT[0] == 110;
  }

  lemma TokenUndoes(c: Libc.Calls, n: Node, depth: nat, pretty: bool)
    requires Libc.Contract(c) && PrintsToken(n, depth)
    ensures IsToken(ValueText(c, n, depth, pretty))
    ensures KeywordOrNumber(c, ValueText(c, n, depth, pretty)) == Some(Shown(n, depth))
  {
    hide Libc.Contract, Libc.IsFinite, IsToken, KeywordOrNumber, IntText, FloatText;
    KeywordsAre(c);
    if depth <= JsonText.MAX_DEPTH {
      match n
      case Int(i) => IntIsToken(i); IntUndoes(c, i);
      case Float(d) =>
        if Libc.IsFinite(d) {
          FloatIsToken(c, d);
          FloatUndoes(c, d);
        } else {
          NotFinite(c, d);
        }
      case _ =>
    }
  }

  lemma NotFinite(c: Libc.Calls, d: Double)
    requires !Libc.IsFinite(d)
    ensures FloatText(c, d) == NULL_TEXT
  {
  }

  // ---- Reading a token ----

  /** A position where an unquoted value ends for the parser. */
  predicate Ends(t: Bytes, p: nat)
    requires p <= |t|
  {
    p < |t| ==> IsNewline(t[p]) || t[p] == COMMA || t[p] == RBRACKET || t[p] == RBRACE
  }

  lemma {:induction false} TokenRun(c: Libc.Calls, t: Bytes, p: nat, k: nat, w: Bytes, v: Value)
    requires At(t, p, w) && IsToken(w) && k <= |w| && Ends(t, p + |w|)
    requires KeywordOrNumber(c, w) == Some(v)
    ensures UnquotedFrom(c, t, p + k, p, p + k) == Good(v, p + |w|)
    decreases |w| - k
  {
    hide KeywordOrNumber, UnquotedFrom, At;
    if k == |w| {
      TokenEnd(c, t, p, w, v);
    } else {
      AtByte(t, p, w, k);
      TokenStep(c, t, p, p + k);
      TokenRun(c, t, p, k + 1, w, v);
    }
  }

  lemma TokenEnd(c: Libc.Calls, t: Bytes, p: nat, w: Bytes, v: Value)
    requires At(t, p, w) && w != [] && Ends(t, p + |w|)
    requires KeywordOrNumber(c, w) == Some(v)
    ensures UnquotedFrom(c, t, p + |w|, p, p + |w|) == Good(v, p + |w|)
  {
    hide KeywordOrNumber;
    assert t[p..p + |w|] == w;
  }

  lemma TokenStep(c: Libc.Calls, t: Bytes, start: nat, p: nat)
    requires start <= p < |t| && TokenByte(t[p])
    ensures UnquotedFrom(c, t, p, start, p) == UnquotedFrom(c, t, p + 1, start, p + 1)
  {
    hide KeywordOrNumber;
  }

  /** What can come first in the text of a value: never a blank, a comment, a comma or a bracket that closes. */
  predicate StartsValue(t: Bytes, p: nat) {
    p < |t| && (TokenByte(t[p]) || t[p] == QUOTE || t[p] == LBRACE || t[p] == LBRACKET)
  }

  lemma StartIsSolid(t: Bytes, p: nat)
    requires StartsValue(t, p)
    ensures Solid(t, p) && SkipWs(t, p) == p
    ensures t[p] != COMMA && t[p] != RBRACKET && t[p] != RBRACE
  {
    hide SkipWs;
    SkipBlanks(t, p, p);
  }

  lemma ParseToken(c: Libc.Calls, t: Bytes, p: nat, w: Bytes, v: Value, depth: nat)
    requires At(t, p, w) && IsToken(w) && Ends(t, p + |w|) && depth <= HjsonSyntax.MAX_DEPTH
    requires KeywordOrNumber(c, w) == Some(v)
    ensures StartsValue(t, p)
    ensures ParseValue(c, t, p, depth) == Good(v, p + |w|)
  {
    hide KeywordOrNumber, UnquotedFrom, At, SkipWs, ParseFields, ParseElems, Quoted;
    AtByte(t, p, w, 0);
    StartIsSolid(t, p);
    TokenRun(c, t, p, 0, w, v);
  }

  lemma ParseString(c: Libc.Calls, t: Bytes, p: nat, s: Bytes, depth: nat)
    requires At(t, p, StringText(s)) && depth <= HjsonSyntax.MAX_DEPTH
    ensures StartsValue(t, p)
    ensures ParseValue(c, t, p, depth) == Good(VStr(s), p + |StringText(s)|)
  {
    hide At, SkipWs, ParseFields, ParseElems, Quoted, StringText;
    StringUndoes(t, p, s, true);
    StartIsSolid(t, p);
  }

  // ---- Layout ----

  lemma LineStartIsBlank(t: Bytes, p: nat, pretty: bool, depth: nat)
    requires At(t, p, LineStart(pretty, depth))
    ensures forall i :: p <= i < p + |LineStart(pretty, depth)| ==> IsSpace(t[i])
    ensures pretty ==> t[p] == LF
  {
    var w := LineStart(pretty, depth);
    forall i | p <= i < p + |w| ensures IsSpace(t[i]) {
      AtByte(t, p, w, i - p);
    }
    if pretty {
      AtByte(t, p, w, 0);
    }
  }

  /** Where the parser goes on after an opening bracket (`first`) or an item. */
  function NextItem(t: Bytes, p: nat, first: bool): (r: nat)
    requires p <= |t|
    ensures p <= r <= |t|
  {
    if first then SkipWs(t, p) else SkipSeparator(t, p)
  }

  /** From the end of one element the parser gets to the start of the next. */
  lemma SeparatorSkipped(t: Bytes, p: nat, pretty: bool, first: bool, depth: nat)
    requires At(t, p, Separator(pretty, first, depth)) && StartsValue(t, p + |Separator(pretty, first, depth)|)
    ensures NextItem(t, p, first) == p + |Separator(pretty, first, depth)|
  {
    hide At, SkipWs, LineStart;
    var line, q := LineStart(pretty, depth), p + |Separator(pretty, first, depth)|;
    StartIsSolid(t, q);
    if first {
      assert [] + line == line;
      LineStartIsBlank(t, p, pretty, depth);
      SkipBlanks(t, p, q);
    } else {
      AtConcat(t, p, [COMMA], line);
      AtByte(t, p, [COMMA], 0);
      LineStartIsBlank(t, p + 1, pretty, depth);
      SkipBlanks(t, p + 1, q);
      SkipBlanks(t, p, p);
    }
  }

  /** From the end of the last element, or the opening bracket, the parser gets to the closing one. */
  lemma ClosingSkipped(t: Bytes, p: nat, pretty: bool, empty: bool, depth: nat, bracket: Byte)
    requires At(t, p, Closing(pretty, empty, depth, bracket)) && (bracket == RBRACKET || bracket == RBRACE)
    ensures var q := p + |Closing(pretty, empty, depth, bracket)| - 1;
            q < |t| && t[q] == bracket && SkipWs(t, p) == q && SkipSeparator(t, p) == q
  {
    hide At, SkipWs, LineStart;
    var line := LineStart(pretty && !empty, depth);
    var q := p + |line|;
    AtConcat(t, p, line, [bracket]);
    AtByte(t, q, [bracket], 0);
    LineStartIsBlank(t, p, pretty && !empty, depth);
    SkipBlanks(t, p, q);
  }

  /** Whatever follows an element ends it. */
  lemma LayoutEnds(t: Bytes, p: nat, w: Bytes)
    requires At(t, p, w) && w != [] && (IsNewline(w[0]) || w[0] == COMMA || w[0] == RBRACKET || w[0] == RBRACE)
    ensures Ends(t, p)
  {
    AtByte(t, p, w, 0);
  }

  lemma ElemsTextStart(c: Libc.Calls, xs: seq<Node>, k: nat, depth: nat, pretty: bool)
    requires 0 < k <= |xs|
    ensures var w := ElemsText(c, xs, k, depth, pretty);
            w != [] && (IsNewline(w[0]) || w[0] == COMMA || w[0] == RBRACKET || w[0] == RBRACE)
  {
    hide ValueText;
  }

  lemma FieldsTextStart(c: Libc.Calls, fs: seq<Field>, k: nat, depth: nat, pretty: bool)
    requires 0 < k <= |fs|
    ensures var w := FieldsText(c, fs, k, depth, pretty);
            w != [] && (IsNewline(w[0]) || w[0] == COMMA || w[0] == RBRACKET || w[0] == RBRACE)
  {
    hide ValueText, StringText;
  }

  // ---- One turn of each loop ----

  lemma ParseElemsDone(c: Libc.Calls, t: Bytes, p: nat, depth: nat, acc: seq<Value>)
    requires p < |t| && t[p] == RBRACKET
    ensures ParseElems(c, t, p, depth, acc) == Good(VArray(acc), p + 1)
  {
    hide ParseValue, SkipSeparator;
  }

  lemma ParseElemsStep(c: Libc.Calls, t: Bytes, p: nat, depth: nat, acc: seq<Value>, v: Value, next: nat)
    requires p < |t| && t[p] != RBRACKET && next <= |t|
    requires ParseValue(c, t, p, depth + 1) == Good(v, next)
    ensures ParseElems(c, t, p, depth, acc) == ParseElems(c, t, SkipSeparator(t, next), depth, acc + [v])
  {
    hide ParseValue, SkipSeparator;
  }

  lemma ParseFieldsDone(c: Libc.Calls, t: Bytes, p: nat, depth: nat, acc: map<Bytes, Value>)
    requires p < |t| && t[p] == RBRACE
    ensures ParseFields(c, t, p, depth, true, acc) == Good(VObject(acc), p + 1)
  {
    hide ParseValue, SkipSeparator, Key;
  }

  lemma ParseFieldsStep(c: Libc.Calls, t: Bytes, p: nat, depth: nat, acc: map<Bytes, Value>,
                        key: Bytes, q: nat, start: nat, v: Value, next: nat)
    requires p < |t| && t[p] != RBRACE && q < |t| && start <= |t| && next <= |t|
    requires Key(t, p) == TextTo(key, q) && SkipWs(t, q) == q && t[q] == COLON
    requires SkipWs(t, q + 1) == start
    requires ParseValue(c, t, start, depth + 1) == Good(v, next)
    ensures ParseFields(c, t, p, depth, true, acc) == ParseFields(c, t, SkipSeparator(t, next), depth, true, acc[key := v])
  {
    hide ParseValue, SkipSeparator, Key, SkipWs;
  }

  lemma ParseKey(t: Bytes, p: nat, key: Bytes)
    requires At(t, p, StringText(key))
    ensures StartsValue(t, p) && Key(t, p) == TextTo(key, p + |StringText(key)|)
  {
    hide Quoted, StringText, At;
    StringUndoes(t, p, key, false);
    NotApostrophes(t, p);
  }

  /** From the end of a key over the colon to the start of the value. */
  lemma ColonSkipped(t: Bytes, p: nat, pretty: bool)
    requires At(t, p, Colon(pretty)) && StartsValue(t, p + |Colon(pretty)|)
    ensures p < |t| && t[p] == COLON && SkipWs(t, p) == p && SkipWs(t, p + 1) == p + |Colon(pretty)|
  {
    hide SkipWs;
    AtByte(t, p, Colon(pretty), 0);
    SkipBlanks(t, p, p);
    StartIsSolid(t, p + |Colon(pretty)|);
    if pretty {
      AtByte(t, p, Colon(pretty), 1);
      SkipBlanks(t, p + 1, p + 2);
    }
  }

  lemma ParseOpening(c: Libc.Calls, t: Bytes, p: nat, depth: nat)
    requires p < |t| && (t[p] == LBRACE || t[p] == LBRACKET) && depth <= HjsonSyntax.MAX_DEPTH
    ensures StartsValue(t, p)
    ensures t[p] == LBRACE ==> ParseValue(c, t, p, depth) == ParseFields(c, t, SkipWs(t, p + 1), depth, true, map[])
    ensures t[p] == LBRACKET ==> ParseValue(c, t, p, depth) == ParseElems(c, t, SkipWs(t, p + 1), depth, [])
  {
    hide SkipWs, ParseFields, ParseElems, Quoted, Unquoted;
    StartIsSolid(t, p);
  }

  // ---- Trees ----

  /** At the text of a tree, followed by anything that ends a value, the parser returns what the
      text shows and the position after it. */
  lemma {:induction false} ParseUndoesPrint(c: Libc.Calls, t: Bytes, p: nat, n: Node, depth: nat, pretty: bool)
    requires Libc.Contract(c) && depth <= JsonText.MAX_DEPTH + 1
    requires At(t, p, ValueText(c, n, depth, pretty)) && Ends(t, p + |ValueText(c, n, depth, pretty)|)
    ensures StartsValue(t, p)
    ensures ParseValue(c, t, p, depth) == Good(Shown(n, depth), p + |ValueText(c, n, depth, pretty)|)
    decreases n, 1
  {
    hide Libc.Contract, At, Ends, ParseValue, ParseFields, ParseElems, SkipWs, StartsValue, StringText,
         ElemsText, FieldsText, FloatText, IntText, IsToken, KeywordOrNumber;
    if PrintsToken(n, depth) {
      TokenUndoes(c, n, depth, pretty);
      ParseToken(c, t, p, ValueText(c, n, depth, pretty), Shown(n, depth), depth);
    } else if n.Str? {
      ParseString(c, t, p, n.s, depth);
    } else if n.Array? {
      AtConcat(t, p, [LBRACKET], ElemsText(c, n.elems, 0, depth, pretty));
      AtByte(t, p, [LBRACKET], 0);
      ParseOpening(c, t, p, depth);
      ParseUndoesElems(c, t, p + 1, n.elems, 0, depth, pretty);
    } else {
      AtConcat(t, p, [LBRACE], FieldsText(c, n.fields, 0, depth, pretty));
      AtByte(t, p, [LBRACE], 0);
      ParseOpening(c, t, p, depth);
      ParseUndoesFields(c, t, p + 1, n.fields, 0, depth, pretty);
    }
  }

  lemma {:induction false} ParseUndoesElems(c: Libc.Calls, t: Bytes, p: nat, xs: seq<Node>, k: nat, depth: nat, pretty: bool)
    requires Libc.Contract(c) && depth <= JsonText.MAX_DEPTH && k <= |xs|
    requires At(t, p, ElemsText(c, xs, k, depth, pretty))
    ensures ParseElems(c, t, NextItem(t, p, k == 0), depth, ShownElems(xs, k, depth))
         == Good(VArray(ShownElems(xs, |xs|, depth)), p + |ElemsText(c, xs, k, depth, pretty)|)
    decreases xs, |xs| - k
  {
    hide Libc.Contract, At, Ends, ParseValue, ParseElems, SkipWs, SkipSeparator, StartsValue, ValueText, Shown, Separator, Closing;
    if k == |xs| {
      var q := p + |Closing(pretty, xs == [], depth, RBRACKET)| - 1;
      ClosingSkipped(t, p, pretty, xs == [], depth, RBRACKET);
      ParseElemsDone(c, t, q, depth, ShownElems(xs, k, depth));
    } else {
      var sep, val, rest := Separator(pretty, k == 0, depth + 1), ValueText(c, xs[k], depth + 1, pretty), ElemsText(c, xs, k + 1, depth, pretty);
      var q := p + |sep|;
      AtConcat(t, p, sep, val + rest);
      AtConcat(t, q, val, rest);
      ElemsTextStart(c, xs, k + 1, depth, pretty);
      LayoutEnds(t, q + |val|, rest);
      ParseUndoesPrint(c, t, q, xs[k], depth + 1, pretty);
      StartIsSolid(t, q);
      SeparatorSkipped(t, p, pretty, k == 0, depth + 1);
      ParseElemsStep(c, t, q, depth, ShownElems(xs, k, depth), Shown(xs[k], depth + 1), q + |val|);
      ParseUndoesElems(c, t, q + |val|, xs, k + 1, depth, pretty);
    }
  }

  lemma {:induction false} ParseUndoesFields(c: Libc.Calls, t: Bytes, p: nat, fs: seq<Field>, k: nat, depth: nat, pretty: bool)
    requires Libc.Contract(c) && depth <= JsonText.MAX_DEPTH && k <= |fs|
    requires At(t, p, FieldsText(c, fs, k, depth, pretty))
    ensures ParseFields(c, t, NextItem(t, p, k == 0), depth, true, ShownFields(fs, k, depth))
         == Good(VObject(ShownFields(fs, |fs|, depth)), p + |FieldsText(c, fs, k, depth, pretty)|)
    decreases fs, |fs| - k
  {
    hide Libc.Contract, At, Ends, ParseValue, ParseFields, SkipWs, SkipSeparator, StartsValue, ValueText, Shown,
         Separator, Closing, StringText, Colon, Key;
    if k == |fs| {
      var q := p + |Closing(pretty, fs == [], depth, RBRACE)| - 1;
      ClosingSkipped(t, p, pretty, fs == [], depth, RBRACE);
      ParseFieldsDone(c, t, q, depth, ShownFields(fs, k, depth));
    } else {
      var sep, key, colon := Separator(pretty, k == 0, depth + 1), StringText(fs[k].key), Colon(pretty);
      var val := ValueText(c, fs[k].val, depth + 1, pretty);
      var q := p + |sep|;
      var r := q + |key|;
      var start := r + |colon|;
      FieldParts(c, t, p, fs, k, depth, pretty);
      ParseKey(t, q, fs[k].key);
      ParseUndoesPrint(c, t, start, fs[k].val, depth + 1, pretty);
      StartIsSolid(t, q);
      SeparatorSkipped(t, p, pretty, k == 0, depth + 1);
      ColonSkipped(t, r, pretty);
      ParseFieldsStep(c, t, q, depth, ShownFields(fs, k, depth), fs[k].key, r, start, Shown(fs[k].val, depth + 1), start + |val|);
      ParseUndoesFields(c, t, start + |val|, fs, k + 1, depth, pretty);
    }
  }

  /** Where the parts of field k stand. */
  lemma FieldParts(c: Libc.Calls, t: Bytes, p: nat, fs: seq<Field>, k: nat, depth: nat, pretty: bool)
    requires k < |fs| && At(t, p, FieldsText(c, fs, k, depth, pretty))
    ensures var sep, key, colon := Separator(pretty, k == 0, depth + 1), StringText(fs[k].key), Colon(pretty);
            var val, rest := ValueText(c, fs[k].val, depth + 1, pretty), FieldsText(c, fs, k + 1, depth, pretty);
            && At(t, p, sep) && At(t, p + |sep|, key) && At(t, p + |sep| + |key|, colon)
            && At(t, p + |sep| + |key| + |colon|, val) && At(t, p + |sep| + |key| + |colon| + |val|, rest)
            && Ends(t, p + |sep| + |key| + |colon| + |val|)
            && |FieldsText(c, fs, k, depth, pretty)| == |sep| + |key| + |colon| + |val| + |rest|
  {
    hide At, Ends, ValueText, Separator, StringText, Colon;
    var sep, key, colon := Separator(pretty, k == 0, depth + 1), StringText(fs[k].key), Colon(pretty);
    var val, rest := ValueText(c, fs[k].val, depth + 1, pretty), FieldsText(c, fs, k + 1, depth, pretty);
    AtConcat(t, p, sep, key + (colon + (val + rest)));
    AtConcat(t, p + |sep|, key, colon + (val + rest));
    AtConcat(t, p + |sep| + |key|, colon, val + rest);
    AtConcat(t, p + |sep| + |key| + |colon|, val, rest);
    FieldsTextStart(c, fs, k + 1, depth, pretty);
    LayoutEnds(t, p + |sep| + |key| + |colon| + |val|, rest);
  }

  // ---- Whole texts ----

  /** A token has no colon in it, so it is no key. */
  lemma {:induction false} TokenIsNoKey(t: Bytes, p: nat, start: nat, blank: Option<nat>)
    requires start <= p <= |t| && forall i :: 0 <= i < |t| ==> TokenByte(t[i])
    ensures UnquotedKey(t, p, start, p, blank).NoText?
    decreases |t| - p
  {
    if p < |t| {
      TokenIsNoKey(t, p + 1, start, blank);
    }
  }

  lemma NoMembers(c: Libc.Calls, t: Bytes)
    requires t != [] && t[0] != LBRACE && t[0] != LBRACKET
    requires IsToken(t) || exists s :: t == StringText(s)
    ensures ParseFields(c, t, 0, 0, false, map[]).Bad?
  {
    hide ParseValue, SkipSeparator, StringText, UnquotedKey, Quoted;
    if IsToken(t) {
      TokenIsNoKey(t, 0, 0, None);
    } else {
      var s :| t == StringText(s);
      assert t[0..|t|] == t;
      ParseKey(t, 0, s);
      EndIsSolid(t);
    }
  }

  lemma EndIsSolid(t: Bytes)
    ensures SkipWs(t, |t|) == |t|
  {
    SkipBlanks(t, |t|, |t|);
  }

  /** The round trip, for every tree, every iteration order and both layouts. */
  lemma HjsonParseUndoesPrint(c: Libc.Calls, n: Node, pretty: bool)
    requires Libc.Contract(c)
    ensures Parse(c, ValueText(c, n, 0, pretty)) == Some(Shown(n, 0))
  {
    hide Libc.Contract, ParseValue, ParseFields, SkipWs, StringText,
         ElemsText, FieldsText, FloatText, IntText, KeywordOrNumber, Shown, TokenBytes;
    var t := ValueText(c, n, 0, pretty);
    assert t[0..|t|] == t;
    ParseUndoesPrint(c, t, 0, n, 0, pretty);
    StartIsSolid(t, 0);
    EndIsSolid(t);
    if !n.Array? && !n.Object? {
      if PrintsToken(n, 0) {
        TokenUndoes(c, n, 0, pretty);
        TokenStart(t);
      } else {
        ParseKey(t, 0, n.s);
        StringUndoes(t, 0, n.s, false);
      }
      NoMembers(c, t);
    }
  }

  lemma TokenStart(t: Bytes)
    requires IsToken(t)
    ensures t[0] != LBRACE && t[0] != LBRACKET
  {
  }

  // ---- What the printer shows ----

  /** Nothing in the tree has to be replaced: whatever lies below the limit is null already, and there
      are no integer-keyed maps, binaries or non-finite numbers above it. */
  ghost predicate Printable(n: Node, depth: nat) {
    if depth > JsonText.MAX_DEPTH then n.Null?
    else
      match n
      case Float(d) => Libc.IsFinite(d)
      case Array(xs) => forall i :: 0 <= i < |xs| ==> Printable(xs[i], depth + 1)
      case Object(fs) => forall i :: 0 <= i < |fs| ==> Printable(fs[i].val, depth + 1)
      case IntMap(_) => false
      case Binary(_) => false
      case _ => true
  }

  /** Such a tree comes back whole, numbers of either kind included. */
  lemma {:induction false} PrintableIsShown(n: Node, depth: nat)
    requires Printable(n, depth)
    ensures Shown(n, depth) == Content(n)
    decreases n
  {
    hide Libc.IsFinite, ShownElems, ShownFields, ElemContents, FieldContents;
    if depth <= JsonText.MAX_DEPTH {
      match n
      case Array(xs) =>
        forall i | 0 <= i < |xs| ensures Shown(xs[i], depth + 1) == Content(xs[i]) {
          PrintableIsShown(xs[i], depth + 1);
        }
        ShownElemsAre(xs, |xs|, depth);
      case Object(fs) =>
        forall i | 0 <= i < |fs| ensures Shown(fs[i].val, depth + 1) == Content(fs[i].val) {
          PrintableIsShown(fs[i].val, depth + 1);
        }
        ShownFieldsAre(fs, |fs|, depth);
      case _ =>
    }
  }

  lemma {:induction false} ShownElemsAre(xs: seq<Node>, k: nat, depth: nat)
    requires k <= |xs| && forall i :: 0 <= i < |xs| ==> Shown(xs[i], depth + 1) == Content(xs[i])
    ensures ShownElems(xs, k, depth) == ElemContents(xs, k)
  {
    hide Shown, Content;
    if k > 0 { ShownElemsAre(xs, k - 1, depth); }
  }

  lemma {:induction false} ShownFieldsAre(fs: seq<Field>, k: nat, depth: nat)
    requires k <= |fs| && forall i :: 0 <= i < |fs| ==> Shown(fs[i].val, depth + 1) == Content(fs[i].val)
    ensures ShownFields(fs, k, depth) == FieldContents(fs, k)
  {
    hide Shown, Content;
    if k > 0 { ShownFieldsAre(fs, k - 1, depth); }
  }

  lemma {:induction false} ShownElemsAt(xs: seq<Node>, k: nat, depth: nat)
    requires k <= |xs|
    ensures |ShownElems(xs, k, depth)| == k
    ensures forall i :: 0 <= i < k ==> ShownElems(xs, k, depth)[i] == Shown(xs[i], depth + 1)
  {
    hide Shown;
    if k > 0 { ShownElemsAt(xs, k - 1, depth); }
  }

  lemma {:induction false} ShownFieldsAt(fs: seq<Field>, k: nat, depth: nat)
    requires k <= |fs| && DistinctFields(fs)
    ensures forall i :: 0 <= i < k ==>
              fs[i].key in ShownFields(fs, k, depth) && ShownFields(fs, k, depth)[fs[i].key] == Shown(fs[i].val, depth + 1)
  {
    hide Shown;
    if k > 0 { ShownFieldsAt(fs, k - 1, depth); }
  }

  /** And only such a tree does. */
  lemma {:induction false} ShownIsPrintable(n: Node, depth: nat)
    requires DistinctKeys(n) && Shown(n, depth) == Content(n)
    ensures Printable(n, depth)
    decreases n
  {
    hide Libc.IsFinite, ShownElems, ShownFields, ElemContents, FieldContents;
    if depth <= JsonText.MAX_DEPTH {
      match n
      case Array(xs) =>
        ShownElemsAt(xs, |xs|, depth);
        ElemContentsAt(xs, |xs|);
        forall i | 0 <= i < |xs| ensures Printable(xs[i], depth + 1) {
          ShownIsPrintable(xs[i], depth + 1);
        }
      case Object(fs) =>
        ShownFieldsAt(fs, |fs|, depth);
        FieldContentsAt(fs, |fs|);
        forall i | 0 <= i < |fs| ensures Printable(fs[i].val, depth + 1) {
          ShownIsPrintable(fs[i].val, depth + 1);
        }
      case _ =>
    }
  }

  /** The text gives back all of a tree exactly when nothing in it had to be replaced. */
  lemma RoundTripExactly(c: Libc.Calls, n: Node, pretty: bool)
    requires Libc.Contract(c) && DistinctKeys(n)
    ensures Parse(c, ValueText(c, n, 0, pretty)) == Some(Content(n)) <==> Printable(n, 0)
  {
    hide Libc.Contract, Parse, ValueText, Shown, Printable, Content, DistinctKeys;
    HjsonParseUndoesPrint(c, n, pretty);
    if Printable(n, 0) {
      PrintableIsShown(n, 0);
    }
    if Shown(n, 0) == Content(n) {
      ShownIsPrintable(n, 0);
    }
  }

  /** Section 7 of RFC 8259: a byte may stand for itself unless it is a quotation mark, a backslash or
      a control character; otherwise it has a two-character escape or six characters with its code. */
  predicate Rfc8259Char(u: Bytes, c: Byte) {
    || (u == [c] && c >= 0x20 && c != 0x22 && c != 0x5c)
    || (|u| == 2 && u[0] == 0x5c &&
        (u[1], c) in {(0x22, 0x22), (0x5c, 0x5c), (0x2f, 0x2f), (0x62, 8), (0x66, 12), (0x6e, 10), (0x72, 13), (0x74, 9)})
    || (|u| == 6 && u[0] == 0x5c && u[1] == 0x75 && (forall i :: 2 <= i < 6 ==> IsHex(u[i])) &&
        HexValue(u[2]) * 0x1000 + HexValue(u[3]) * 0x100 + HexValue(u[4]) * 0x10 + HexValue(u[5]) == c)
  }

  lemma EscapeFollowsRfc8259(c: Byte)
    ensures Rfc8259Char(EscapedByte(c), c)
  {
    if c < 32 {
      HexUndoes(c / 16);
      HexUndoes(c % 16);
      HexUndoes(0);
    }
  }
}
