/** How the two layouts of the JSON text are related: the indented one is what a formatter that knows
    nothing but brackets, commas, colons and strings makes of the compact one, and the compact one is
    the indented one without its blanks. */
module JsonLayout {
  import opened ByteStrings
  import opened DataNodes
  import opened Ascii
  import opened HjsonSyntax
  import opened JsonText
  import opened HjsonTokens
  import opened HjsonRoundTrip
  import Libc

  /** Behind the quote that ends a string, from a place inside it. */
  function StringEnd(t: Bytes, p: nat): (r: nat)
    requires p <= |t|
    ensures p <= r <= |t|
    decreases |t| - p
  {
    if p == |t| then p
    else if t[p] == QUOTE then p + 1
    else if t[p] == BACKSLASH && p + 1 < |t| then StringEnd(t, p + 2)
    else StringEnd(t, p + 1)
  }

  /** A new line of four blanks for every bracket that is open. */
  function NewLine(open: nat): Bytes {
    [LF] + Spaces(4 * open)
  }

  /** The formatter, from p on, with `open` brackets open. */
  function Formatted(t: Bytes, p: nat, open: nat): Bytes
    requires p <= |t|
    decreases |t| - p
  {
    if p == |t| then []
    else if t[p] == QUOTE then
      var q := StringEnd(t, p + 1);
      t[p..q] + Formatted(t, q, open)
    else if t[p] == LBRACE || t[p] == LBRACKET then
      if p + 1 < |t| && (t[p + 1] == RBRACE || t[p + 1] == RBRACKET) then [t[p], t[p + 1]] + Formatted(t, p + 2, open)
      else [t[p]] + NewLine(open + 1) + Formatted(t, p + 1, open + 1)
    else if t[p] == RBRACE || t[p] == RBRACKET then
      var less := if open > 0 then open - 1 else 0;
      NewLine(less) + [t[p]] + Formatted(t, p + 1, less)
    else if t[p] == COMMA then [COMMA] + NewLine(open) + Formatted(t, p + 1, open)
    else if t[p] == COLON then [COLON, SPACE] + Formatted(t, p + 1, open)
    else [t[p]] + Formatted(t, p + 1, open)
  }

  /** Everything but the blanks outside strings. */
  function Stripped(t: Bytes, p: nat): Bytes
    requires p <= |t|
    decreases |t| - p
  {
    if p == |t| then []
    else if t[p] == QUOTE then
      var q := StringEnd(t, p + 1);
      t[p..q] + Stripped(t, q)
    else if IsSpace(t[p]) then Stripped(t, p + 1)
    else [t[p]] + Stripped(t, p + 1)
  }

  // ---- Strings and tokens ----

  lemma {:induction false} EscapedEnds(t: Bytes, p: nat, s: Bytes, k: nat)
    requires k <= |s| && At(t, p, Escaped(s, k) + [QUOTE])
    ensures StringEnd(t, p) == p + |Escaped(s, k)| + 1
    decreases |s| - k
  {
    hide At, EscapedByte, StringEnd;
    if k == |s| {
      assert Escaped(s, k) + [QUOTE] == [QUOTE];
      QuoteHere(t, p);
    } else {
      var e, rest := EscapedByte(s[k]), Escaped(s, k + 1) + [QUOTE];
      assert Escaped(s, k) + [QUOTE] == e + rest;
      AtConcat(t, p, e, rest);
      EscapePassed(t, p, s[k]);
      EscapedEnds(t, p + |e|, s, k + 1);
    }
  }

  lemma QuoteHere(t: Bytes, p: nat)
    requires At(t, p, [QUOTE])
    ensures StringEnd(t, p) == p + 1
  {
    AtByte(t, p, [QUOTE], 0);
  }

  lemma EscapePassed(t: Bytes, p: nat, c: Byte)
    requires At(t, p, EscapedByte(c))
    ensures StringEnd(t, p) == StringEnd(t, p + |EscapedByte(c)|)
  {
    var e := EscapedByte(c);
    AtByte(t, p, e, 0);
    if |e| > 1 { AtByte(t, p, e, 1); }
    if |e| == 6 {
      AtByte(t, p, e, 2);
      AtByte(t, p, e, 3);
      AtByte(t, p, e, 4);
      AtByte(t, p, e, 5);
      HexPassed(t, p + 2);
    }
  }

  lemma HexPassed(t: Bytes, p: nat)
    requires p + 4 <= |t| && forall i :: p <= i < p + 4 ==> t[i] != QUOTE && t[i] != BACKSLASH
    ensures StringEnd(t, p) == StringEnd(t, p + 4)
  {
    assert StringEnd(t, p) == StringEnd(t, p + 1);
    assert StringEnd(t, p + 1) == StringEnd(t, p + 2);
    assert StringEnd(t, p + 2) == StringEnd(t, p + 3);
  }

  lemma StringCopied(t: Bytes, p: nat, s: Bytes, open: nat)
    requires At(t, p, StringText(s))
    ensures var q := p + |StringText(s)|;
            Formatted(t, p, open) == StringText(s) + Formatted(t, q, open) && Stripped(t, p) == StringText(s) + Stripped(t, q)
  {
    hide StringEnd, Escaped;
    var rest := Escaped(s, 0) + [QUOTE];
    assert StringText(s) == [QUOTE] + rest;
    AtConcat(t, p, [QUOTE], rest);
    AtByte(t, p, [QUOTE], 0);
    EscapedEnds(t, p + 1, s, 0);
  }

  lemma PlainCopied(t: Bytes, p: nat, open: nat)
    requires p < |t| && TokenByte(t[p])
    ensures Formatted(t, p, open) == [t[p]] + Formatted(t, p + 1, open) && Stripped(t, p) == [t[p]] + Stripped(t, p + 1)
  {
  }

  lemma {:induction false} TokenCopied(t: Bytes, p: nat, w: Bytes, open: nat)
    requires At(t, p, w) && TokenBytes(w)
    ensures Formatted(t, p, open) == w + Formatted(t, p + |w|, open) && Stripped(t, p) == w + Stripped(t, p + |w|)
    decreases |w|
  {
    hide Formatted, Stripped, TokenByte;
    if w == [] {
      assert w + Formatted(t, p, open) == Formatted(t, p, open) && w + Stripped(t, p) == Stripped(t, p);
    } else {
      var rest := w[1..];
      assert w == [w[0]] + rest;
      AtConcat(t, p, [w[0]], rest);
      AtByte(t, p, w, 0);
      PlainCopied(t, p, open);
      TokenCopied(t, p + 1, rest, open);
      assert w + Formatted(t, p + |w|, open) == [w[0]] + (rest + Formatted(t, p + |w|, open));
      assert w + Stripped(t, p + |w|) == [w[0]] + (rest + Stripped(t, p + |w|));
    }
  }

  // ---- Brackets, commas and colons ----

  lemma PunctuationFormatted(t: Bytes, p: nat, open: nat)
    requires p < |t| && t[p] in {COMMA, COLON, RBRACE, RBRACKET}
    ensures Formatted(t, p, open) ==
              if t[p] == COMMA then [COMMA] + NewLine(open) + Formatted(t, p + 1, open)
              else if t[p] == COLON then [COLON, SPACE] + Formatted(t, p + 1, open)
              else NewLine(if open > 0 then open - 1 else 0) + [t[p]] + Formatted(t, p + 1, if open > 0 then open - 1 else 0)
  {
    hide NewLine;
  }

  lemma OpeningFormatted(t: Bytes, p: nat, open: nat)
    requires p + 1 < |t| && t[p] in {LBRACE, LBRACKET}
    ensures Formatted(t, p, open) ==
              if t[p + 1] == RBRACE || t[p + 1] == RBRACKET then [t[p], t[p + 1]] + Formatted(t, p + 2, open)
              else [t[p]] + NewLine(open + 1) + Formatted(t, p + 1, open + 1)
  {
    hide NewLine;
  }

  lemma PunctuationKept(t: Bytes, p: nat)
    requires p < |t| && t[p] in {COMMA, COLON, LBRACE, RBRACE, LBRACKET, RBRACKET}
    ensures Stripped(t, p) == [t[p]] + Stripped(t, p + 1)
  {
  }

  lemma {:induction false} BlanksGone(t: Bytes, p: nat, w: Bytes)
    requires At(t, p, w) && forall i :: 0 <= i < |w| ==> IsSpace(w[i])
    ensures Stripped(t, p) == Stripped(t, p + |w|)
    decreases |w|
  {
    if w != [] {
      assert w == [w[0]] + w[1..];
      AtConcat(t, p, [w[0]], w[1..]);
      AtByte(t, p, w, 0);
      BlanksGone(t, p + 1, w[1..]);
    }
  }

  /** No value begins with a closing bracket. */
  lemma ValueBegins(c: Libc.Calls, n: Node, depth: nat, pretty: bool)
    requires Libc.Contract(c)
    ensures var w := ValueText(c, n, depth, pretty); w != [] && w[0] != RBRACE && w[0] != RBRACKET
  {
    hide Libc.Contract, KeywordOrNumber, ElemsText, FieldsText, IntText, FloatText, Escaped;
    if PrintsToken(n, depth) {
      TokenUndoes(c, n, depth, pretty);
    }
  }

  lemma Regroup(a: Bytes, b: Bytes, x: Bytes, y: Bytes)
    ensures a + (b + (x + y)) == (a + (b + x)) + y && a + (b + x) == a + b + x
  {
  }

  // ---- Formatting ----

  lemma {:induction false} FormatsValue(c: Libc.Calls, t: Bytes, p: nat, n: Node, depth: nat)
    requires Libc.Contract(c) && At(t, p, ValueText(c, n, depth, false))
    ensures var q := p + |ValueText(c, n, depth, false)|;
            Formatted(t, p, depth) == ValueText(c, n, depth, true) + Formatted(t, q, depth)
    decreases n, 0
  {
    hide Libc.Contract, At, Formatted, Stripped, KeywordOrNumber, ElemsText, FieldsText, IntText, FloatText, StringText, NewLine, TokenBytes;
    var w := ValueText(c, n, depth, false);
    if PrintsToken(n, depth) {
      TokenUndoes(c, n, depth, false);
      TokenCopied(t, p, w, depth);
      SameToken(c, n, depth);
    } else if n.Str? {
      StringCopied(t, p, n.s, depth);
    } else if n.Array? {
      AtConcat(t, p, [LBRACKET], ElemsText(c, n.elems, 0, depth, false));
      FormatsArray(c, t, p, n.elems, depth);
    } else {
      AtConcat(t, p, [LBRACE], FieldsText(c, n.fields, 0, depth, false));
      FormatsObject(c, t, p, n.fields, depth);
    }
  }

  /** A token is the same in both layouts. */
  lemma SameToken(c: Libc.Calls, n: Node, depth: nat)
    requires PrintsToken(n, depth)
    ensures ValueText(c, n, depth, true) == ValueText(c, n, depth, false)
  {
    hide IntText, FloatText;
  }

  lemma NoneText(pretty: bool, depth: nat, bracket: Byte)
    ensures Closing(pretty, true, depth, bracket) == [bracket] && Closing(true, false, depth, bracket) == NewLine(depth) + [bracket]
    ensures Closing(false, false, depth, bracket) == [bracket]
    ensures Separator(true, true, depth) == NewLine(depth) && Separator(true, false, depth) == [COMMA] + NewLine(depth)
    ensures Separator(false, true, depth) == [] && Separator(false, false, depth) == [COMMA]
  {
    assert Separator(true, true, depth) == [] + LineStart(true, depth);
  }

  lemma {:induction false} FormatsArray(c: Libc.Calls, t: Bytes, p: nat, xs: seq<Node>, depth: nat)
    requires Libc.Contract(c) && At(t, p, [LBRACKET]) && At(t, p + 1, ElemsText(c, xs, 0, depth, false))
    ensures var q := p + 1 + |ElemsText(c, xs, 0, depth, false)|;
            Formatted(t, p, depth) == [LBRACKET] + ElemsText(c, xs, 0, depth, true) + Formatted(t, q, depth)
    decreases xs, |xs| + 1
  {
    hide Libc.Contract, Formatted, ValueText, NewLine, ElemsText, At;
    AtByte(t, p, [LBRACKET], 0);
    if xs == [] {
      NoFields(c, depth);
      AtByte(t, p + 1, [RBRACKET], 0);
      OpeningFormatted(t, p, depth);
      assert [LBRACKET, RBRACKET] == [LBRACKET] + [RBRACKET];
    } else {
      var val, rest := ValueText(c, xs[0], depth + 1, false), ElemsText(c, xs, 1, depth, false);
      FirstGlue(c, xs, depth, []);
      AtConcat(t, p + 1, val, rest);
      FirstGlue(c, xs, depth, Formatted(t, p + 1 + |val| + |rest|, depth));
      ValueBegins(c, xs[0], depth + 1, false);
      AtByte(t, p + 1, val, 0);
      OpeningFormatted(t, p, depth);
      FormatsValue(c, t, p + 1, xs[0], depth + 1);
      FormatsElems(c, t, p + 1 + |val|, xs, 1, depth);
    }
  }

  lemma FirstGlue(c: Libc.Calls, xs: seq<Node>, depth: nat, end: Bytes)
    requires xs != []
    ensures ElemsText(c, xs, 0, depth, false) == ValueText(c, xs[0], depth + 1, false) + ElemsText(c, xs, 1, depth, false)
    ensures [LBRACKET] + ElemsText(c, xs, 0, depth, true) + end
         == [LBRACKET] + NewLine(depth + 1) + (ValueText(c, xs[0], depth + 1, true) + (ElemsText(c, xs, 1, depth, true) + end))
  {
    hide ValueText, Separator, Closing, NewLine;
    NoneText(true, depth + 1, RBRACKET);
    var open, first, others := NewLine(depth + 1), ValueText(c, xs[0], depth + 1, true), ElemsText(c, xs, 1, depth, true);
    Regroup([LBRACKET] + open, first, others, end);
    Regroup([LBRACKET], open, first + others, end);
  }

  lemma ElemGlue(c: Libc.Calls, xs: seq<Node>, k: nat, depth: nat, end: Bytes)
    requires 0 < k < |xs|
    ensures ElemsText(c, xs, k, depth, false) == [COMMA] + (ValueText(c, xs[k], depth + 1, false) + ElemsText(c, xs, k + 1, depth, false))
    ensures ElemsText(c, xs, k, depth, true) + end
         == [COMMA] + NewLine(depth + 1) + (ValueText(c, xs[k], depth + 1, true) + (ElemsText(c, xs, k + 1, depth, true) + end))
  {
    hide ValueText, Separator, Closing, NewLine;
    NoneText(true, depth + 1, RBRACKET);
    Regroup([COMMA] + NewLine(depth + 1), ValueText(c, xs[k], depth + 1, true), ElemsText(c, xs, k + 1, depth, true), end);
  }

  lemma ElemsEnd(c: Libc.Calls, xs: seq<Node>, depth: nat)
    requires xs != []
    ensures ElemsText(c, xs, |xs|, depth, false) == [RBRACKET] && ElemsText(c, xs, |xs|, depth, true) == NewLine(depth) + [RBRACKET]
  {
    hide Closing, NewLine;
    NoneText(true, depth, RBRACKET);
  }

  lemma {:induction false} FormatsElems(c: Libc.Calls, t: Bytes, p: nat, xs: seq<Node>, k: nat, depth: nat)
    requires Libc.Contract(c) && 0 < k <= |xs| && At(t, p, ElemsText(c, xs, k, depth, false))
    ensures var q := p + |ElemsText(c, xs, k, depth, false)|;
            Formatted(t, p, depth + 1) == ElemsText(c, xs, k, depth, true) + Formatted(t, q, depth)
    decreases xs, |xs| - k
  {
    hide Libc.Contract, Formatted, ValueText, NewLine, ElemsText, At;
    if k == |xs| {
      ElemsEnd(c, xs, depth);
      AtByte(t, p, [RBRACKET], 0);
      PunctuationFormatted(t, p, depth + 1);
    } else {
      var val, rest := ValueText(c, xs[k], depth + 1, false), ElemsText(c, xs, k + 1, depth, false);
      ElemGlue(c, xs, k, depth, []);
      ElemGlue(c, xs, k, depth, Formatted(t, p + 1 + |val| + |rest|, depth));
      AtConcat(t, p, [COMMA], val + rest);
      AtConcat(t, p + 1, val, rest);
      AtByte(t, p, [COMMA], 0);
      PunctuationFormatted(t, p, depth + 1);
      FormatsValue(c, t, p + 1, xs[k], depth + 1);
      FormatsElems(c, t, p + 1 + |val|, xs, k + 1, depth);
    }
  }

  lemma {:induction false} FormatsObject(c: Libc.Calls, t: Bytes, p: nat, fs: seq<Field>, depth: nat)
    requires Libc.Contract(c) && At(t, p, [LBRACE]) && At(t, p + 1, FieldsText(c, fs, 0, depth, false))
    ensures var q := p + 1 + |FieldsText(c, fs, 0, depth, false)|;
            Formatted(t, p, depth) == [LBRACE] + FieldsText(c, fs, 0, depth, true) + Formatted(t, q, depth)
    decreases fs, |fs| + 2
  {
    hide Libc.Contract, Formatted, NewLine, FieldsText, MemberText, At;
    AtByte(t, p, [LBRACE], 0);
    if fs == [] {
      NoFields(c, depth);
      AtByte(t, p + 1, [RBRACE], 0);
      OpeningFormatted(t, p, depth);
      assert [LBRACE, RBRACE] == [LBRACE] + [RBRACE];
    } else {
      var text := MemberText(c, fs, 0, depth, false);
      ObjectGlue(c, fs, depth, []);
      KeyBegins(c, fs, 0, depth, t, p + 1);
      OpeningFormatted(t, p, depth);
      FormatsMember(c, t, p + 1, fs, 0, depth);
      ObjectGlue(c, fs, depth, Formatted(t, p + 1 + |text|, depth));
    }
  }

  lemma ObjectGlue(c: Libc.Calls, fs: seq<Field>, depth: nat, end: Bytes)
    requires fs != []
    ensures FieldsText(c, fs, 0, depth, false) == MemberText(c, fs, 0, depth, false)
    ensures [LBRACE] + FieldsText(c, fs, 0, depth, true) + end == [LBRACE] + NewLine(depth + 1) + (MemberText(c, fs, 0, depth, true) + end)
  {
    hide FieldsText, MemberText, NewLine;
    FieldGlue(c, fs, 0, depth, end);
    var line, text, fields := NewLine(depth + 1), MemberText(c, fs, 0, depth, true), FieldsText(c, fs, 0, depth, true);
    assert [] + line == line && [] + MemberText(c, fs, 0, depth, false) == MemberText(c, fs, 0, depth, false);
    assert [LBRACE] + fields + end == [LBRACE] + (fields + end);
    assert [LBRACE] + (line + (text + end)) == [LBRACE] + line + (text + end);
  }

  lemma NoFields(c: Libc.Calls, depth: nat)
    ensures FieldsText(c, [], 0, depth, false) == [RBRACE] == FieldsText(c, [], 0, depth, true)
    ensures ElemsText(c, [], 0, depth, false) == [RBRACKET] == ElemsText(c, [], 0, depth, true)
  {
  }

  /** A member and what follows it. */
  function MemberText(c: Libc.Calls, fs: seq<Field>, k: nat, depth: nat, pretty: bool): Bytes
    requires k < |fs|
  {
    StringText(fs[k].key) + (Colon(pretty) + (ValueText(c, fs[k].val, depth + 1, pretty) + FieldsText(c, fs, k + 1, depth, pretty)))
  }

  lemma KeyBegins(c: Libc.Calls, fs: seq<Field>, k: nat, depth: nat, t: Bytes, p: nat)
    requires k < |fs| && At(t, p, MemberText(c, fs, k, depth, false))
    ensures p < |t| && t[p] == QUOTE
  {
    hide ValueText, FieldsText, Colon;
    AtByte(t, p, MemberText(c, fs, k, depth, false), 0);
  }

  lemma MemberGlue(c: Libc.Calls, fs: seq<Field>, k: nat, depth: nat, end: Bytes)
    requires k < |fs|
    ensures MemberText(c, fs, k, depth, true) + end
         == StringText(fs[k].key) + ([COLON, SPACE] + (ValueText(c, fs[k].val, depth + 1, true) + (FieldsText(c, fs, k + 1, depth, true) + end)))
  {
    hide ValueText, FieldsText, StringText;
    var key, v, others := StringText(fs[k].key), ValueText(c, fs[k].val, depth + 1, true), FieldsText(c, fs, k + 1, depth, true);
    Regroup([COLON, SPACE], v, others, end);
    Regroup([], key, [COLON, SPACE] + (v + others), end);
  }

  lemma {:induction false} FormatsMember(c: Libc.Calls, t: Bytes, p: nat, fs: seq<Field>, k: nat, depth: nat)
    requires Libc.Contract(c) && k < |fs| && At(t, p, MemberText(c, fs, k, depth, false))
    ensures var q := p + |MemberText(c, fs, k, depth, false)|;
            Formatted(t, p, depth + 1) == MemberText(c, fs, k, depth, true) + Formatted(t, q, depth)
    decreases fs, |fs| - k, 0
  {
    hide Libc.Contract, Formatted, Stripped, ValueText, FieldsText, StringText, At;
    var key, val, rest := StringText(fs[k].key), ValueText(c, fs[k].val, depth + 1, false), FieldsText(c, fs, k + 1, depth, false);
    assert MemberText(c, fs, k, depth, false) == key + ([COLON] + (val + rest));
    AtConcat(t, p, key, [COLON] + (val + rest));
    AtConcat(t, p + |key|, [COLON], val + rest);
    AtConcat(t, p + |key| + 1, val, rest);
    AtByte(t, p + |key|, [COLON], 0);
    StringCopied(t, p, fs[k].key, depth + 1);
    PunctuationFormatted(t, p + |key|, depth + 1);
    FormatsValue(c, t, p + |key| + 1, fs[k].val, depth + 1);
    FormatsFields(c, t, p + |key| + 1 + |val|, fs, k + 1, depth);
    MemberGlue(c, fs, k, depth, Formatted(t, p + |key| + 1 + |val| + |rest|, depth));
  }

  lemma FieldGlue(c: Libc.Calls, fs: seq<Field>, k: nat, depth: nat, end: Bytes)
    requires k < |fs|
    ensures FieldsText(c, fs, k, depth, false) == (if k == 0 then [] else [COMMA]) + MemberText(c, fs, k, depth, false)
    ensures FieldsText(c, fs, k, depth, true) + end
         == (if k == 0 then [] else [COMMA]) + NewLine(depth + 1) + (MemberText(c, fs, k, depth, true) + end)
  {
    hide ValueText, StringText, Separator, Closing, NewLine, Colon;
    NoneText(true, depth + 1, RBRACE);
    var comma: Bytes := if k == 0 then [] else [COMMA];
    assert Separator(true, k == 0, depth + 1) == comma + NewLine(depth + 1);
    Regroup([], comma + NewLine(depth + 1), MemberText(c, fs, k, depth, true), end);
  }

  lemma FieldsEnd(c: Libc.Calls, fs: seq<Field>, depth: nat)
    requires fs != []
    ensures FieldsText(c, fs, |fs|, depth, false) == [RBRACE] && FieldsText(c, fs, |fs|, depth, true) == NewLine(depth) + [RBRACE]
  {
    hide Closing, NewLine;
    NoneText(true, depth, RBRACE);
  }

  lemma {:induction false} FormatsFields(c: Libc.Calls, t: Bytes, p: nat, fs: seq<Field>, k: nat, depth: nat)
    requires Libc.Contract(c) && 0 < k <= |fs| && At(t, p, FieldsText(c, fs, k, depth, false))
    ensures var q := p + |FieldsText(c, fs, k, depth, false)|;
            Formatted(t, p, depth + 1) == FieldsText(c, fs, k, depth, true) + Formatted(t, q, depth)
    decreases fs, |fs| - k, 1
  {
    hide Libc.Contract, Formatted, NewLine, FieldsText, MemberText, At;
    if k == |fs| {
      FieldsEnd(c, fs, depth);
      AtByte(t, p, [RBRACE], 0);
      PunctuationFormatted(t, p, depth + 1);
    } else {
      var text := MemberText(c, fs, k, depth, false);
      FieldGlue(c, fs, k, depth, []);
      FieldGlue(c, fs, k, depth, Formatted(t, p + 1 + |text|, depth));
      AtConcat(t, p, [COMMA], text);
      AtByte(t, p, [COMMA], 0);
      PunctuationFormatted(t, p, depth + 1);
      FormatsMember(c, t, p + 1, fs, k, depth);
    }
  }

  /** For every tree the indented text is the formatted compact text. */
  lemma PrettyIsFormatted(c: Libc.Calls, n: Node)
    requires Libc.Contract(c)
    ensures ValueText(c, n, 0, true) == Formatted(ValueText(c, n, 0, false), 0, 0)
  {
    hide Libc.Contract, ValueText;
    var t := ValueText(c, n, 0, false);
    assert t[0..|t|] == t;
    FormatsValue(c, t, 0, n, 0);
  }

  // ---- Stripping ----

  lemma SeparatorStripped(t: Bytes, p: nat, pretty: bool, first: bool, depth: nat)
    requires At(t, p, Separator(pretty, first, depth))
    ensures Stripped(t, p) == Separator(false, first, depth) + Stripped(t, p + |Separator(pretty, first, depth)|)
  {
    hide Stripped;
    var comma, line := if first then [] else [COMMA], LineStart(pretty, depth);
    AtConcat(t, p, comma, line);
    BlanksGone(t, p + |comma|, line);
    if !first {
      AtByte(t, p, comma, 0);
      PunctuationKept(t, p);
    }
    assert Separator(false, first, depth) == comma;
    assert first ==> [] + Stripped(t, p + |line|) == Stripped(t, p + |line|);
  }

  lemma ClosingStripped(t: Bytes, p: nat, pretty: bool, empty: bool, depth: nat, bracket: Byte)
    requires bracket in {RBRACE, RBRACKET} && At(t, p, Closing(pretty, empty, depth, bracket))
    ensures Stripped(t, p) == [bracket] + Stripped(t, p + |Closing(pretty, empty, depth, bracket)|)
  {
    hide Stripped;
    var line := LineStart(pretty && !empty, depth);
    AtConcat(t, p, line, [bracket]);
    BlanksGone(t, p, line);
    AtByte(t, p + |line|, [bracket], 0);
    PunctuationKept(t, p + |line|);
  }

  lemma ColonStripped(t: Bytes, p: nat, pretty: bool)
    requires At(t, p, Colon(pretty))
    ensures Stripped(t, p) == [COLON] + Stripped(t, p + |Colon(pretty)|)
  {
    AtByte(t, p, Colon(pretty), 0);
    PunctuationKept(t, p);
    if pretty { AtByte(t, p, Colon(pretty), 1); }
  }

  lemma {:induction false} StripsValue(c: Libc.Calls, t: Bytes, p: nat, n: Node, depth: nat, pretty: bool)
    requires Libc.Contract(c) && At(t, p, ValueText(c, n, depth, pretty))
    ensures var q := p + |ValueText(c, n, depth, pretty)|;
            Stripped(t, p) == ValueText(c, n, depth, false) + Stripped(t, q)
    decreases n, 0
  {
    hide Libc.Contract, At, Formatted, Stripped, KeywordOrNumber, ElemsText, FieldsText, IntText, FloatText, StringText, TokenBytes;
    var w := ValueText(c, n, depth, pretty);
    if PrintsToken(n, depth) {
      TokenUndoes(c, n, depth, pretty);
      TokenCopied(t, p, w, 0);
      SameToken(c, n, depth);
    } else if n.Str? {
      StringCopied(t, p, n.s, 0);
    } else if n.Array? {
      var text := ElemsText(c, n.elems, 0, depth, pretty);
      AtConcat(t, p, [LBRACKET], text);
      BracketKept(t, p, LBRACKET);
      StripsElems(c, t, p + 1, n.elems, 0, depth, pretty);
      Regroup([], [LBRACKET], ElemsText(c, n.elems, 0, depth, false), Stripped(t, p + 1 + |text|));
    } else {
      var text := FieldsText(c, n.fields, 0, depth, pretty);
      AtConcat(t, p, [LBRACE], text);
      BracketKept(t, p, LBRACE);
      StripsFields(c, t, p + 1, n.fields, 0, depth, pretty);
      Regroup([], [LBRACE], FieldsText(c, n.fields, 0, depth, false), Stripped(t, p + 1 + |text|));
    }
  }

  lemma BracketKept(t: Bytes, p: nat, b: Byte)
    requires At(t, p, [b]) && b in {LBRACE, LBRACKET}
    ensures Stripped(t, p) == [b] + Stripped(t, p + 1)
  {
    AtByte(t, p, [b], 0);
    PunctuationKept(t, p);
  }

  /** An element split off the text of an array, in either layout, before `end`. */
  lemma ElemSplit(c: Libc.Calls, xs: seq<Node>, k: nat, depth: nat, pretty: bool, end: Bytes)
    requires k < |xs|
    ensures ElemsText(c, xs, k, depth, pretty)
         == Separator(pretty, k == 0, depth + 1) + (ValueText(c, xs[k], depth + 1, pretty) + ElemsText(c, xs, k + 1, depth, pretty))
    ensures ElemsText(c, xs, k, depth, pretty) + end
         == Separator(pretty, k == 0, depth + 1) + (ValueText(c, xs[k], depth + 1, pretty) + (ElemsText(c, xs, k + 1, depth, pretty) + end))
  {
    hide ValueText, Separator, Closing;
    Regroup(Separator(pretty, k == 0, depth + 1), ValueText(c, xs[k], depth + 1, pretty), ElemsText(c, xs, k + 1, depth, pretty), end);
  }

  lemma {:induction false} StripsElems(c: Libc.Calls, t: Bytes, p: nat, xs: seq<Node>, k: nat, depth: nat, pretty: bool)
    requires Libc.Contract(c) && k <= |xs| && At(t, p, ElemsText(c, xs, k, depth, pretty))
    ensures var q := p + |ElemsText(c, xs, k, depth, pretty)|;
            Stripped(t, p) == ElemsText(c, xs, k, depth, false) + Stripped(t, q)
    decreases xs, |xs| - k
  {
    hide Libc.Contract, Stripped, ValueText, Separator, Closing, ElemsText, At;
    if k == |xs| {
      TextEnd(c, xs, [], depth, pretty);
      TextEnd(c, xs, [], depth, false);
      ClosingStripped(t, p, pretty, xs == [], depth, RBRACKET);
      NoneText(false, depth, RBRACKET);
    } else {
      var sep, val, rest := Separator(pretty, k == 0, depth + 1), ValueText(c, xs[k], depth + 1, pretty), ElemsText(c, xs, k + 1, depth, pretty);
      ElemSplit(c, xs, k, depth, pretty, []);
      AtConcat(t, p, sep, val + rest);
      AtConcat(t, p + |sep|, val, rest);
      SeparatorStripped(t, p, pretty, k == 0, depth + 1);
      StripsValue(c, t, p + |sep|, xs[k], depth + 1, pretty);
      StripsElems(c, t, p + |sep| + |val|, xs, k + 1, depth, pretty);
      ElemSplit(c, xs, k, depth, false, Stripped(t, p + |sep| + |val| + |rest|));
    }
  }

  lemma {:induction false} StripsFields(c: Libc.Calls, t: Bytes, p: nat, fs: seq<Field>, k: nat, depth: nat, pretty: bool)
    requires Libc.Contract(c) && k <= |fs| && At(t, p, FieldsText(c, fs, k, depth, pretty))
    ensures var q := p + |FieldsText(c, fs, k, depth, pretty)|;
            Stripped(t, p) == FieldsText(c, fs, k, depth, false) + Stripped(t, q)
    decreases fs, |fs| - k, 1
  {
    hide Libc.Contract, Stripped, ValueText, StringText, Separator, Closing, Colon;
    if k == |fs| {
      ClosingStripped(t, p, pretty, fs == [], depth, RBRACE);
      NoneText(false, depth, RBRACE);
    } else {
      var sep, text := Separator(pretty, k == 0, depth + 1), MemberText(c, fs, k, depth, pretty);
      AtConcat(t, p, sep, text);
      SeparatorStripped(t, p, pretty, k == 0, depth + 1);
      StripsMember(c, t, p + |sep|, fs, k, depth, pretty);
      Regroup([], Separator(false, k == 0, depth + 1), MemberText(c, fs, k, depth, false), Stripped(t, p + |sep| + |text|));
    }
  }

  lemma MemberSplit(c: Libc.Calls, fs: seq<Field>, k: nat, depth: nat, end: Bytes)
    requires k < |fs|
    ensures MemberText(c, fs, k, depth, false) + end
         == StringText(fs[k].key) + ([COLON] + (ValueText(c, fs[k].val, depth + 1, false) + (FieldsText(c, fs, k + 1, depth, false) + end)))
  {
    hide ValueText, FieldsText, StringText;
    var key, v, others := StringText(fs[k].key), ValueText(c, fs[k].val, depth + 1, false), FieldsText(c, fs, k + 1, depth, false);
    CompactColon();
    Regroup([COLON], v, others, end);
    Regroup([], key, [COLON] + (v + others), end);
  }

  lemma {:induction false} StripsMember(c: Libc.Calls, t: Bytes, p: nat, fs: seq<Field>, k: nat, depth: nat, pretty: bool)
    requires Libc.Contract(c) && k < |fs| && At(t, p, MemberText(c, fs, k, depth, pretty))
    ensures var q := p + |MemberText(c, fs, k, depth, pretty)|;
            Stripped(t, p) == MemberText(c, fs, k, depth, false) + Stripped(t, q)
    decreases fs, |fs| - k, 0
  {
    hide Libc.Contract, Formatted, Stripped, ValueText, FieldsText, StringText, Colon, At;
    var key, colon := StringText(fs[k].key), Colon(pretty);
    var val, rest := ValueText(c, fs[k].val, depth + 1, pretty), FieldsText(c, fs, k + 1, depth, pretty);
    assert MemberText(c, fs, k, depth, pretty) == key + (colon + (val + rest));
    AtConcat(t, p, key, colon + (val + rest));
    AtConcat(t, p + |key|, colon, val + rest);
    AtConcat(t, p + |key| + |colon|, val, rest);
    StringCopied(t, p, fs[k].key, 0);
    ColonStripped(t, p + |key|, pretty);
    StripsValue(c, t, p + |key| + |colon|, fs[k].val, depth + 1, pretty);
    StripsFields(c, t, p + |key| + |colon| + |val|, fs, k + 1, depth, pretty);
    MemberSplit(c, fs, k, depth, Stripped(t, p + |key| + |colon| + |val| + |rest|));
  }

  lemma CompactColon()
    ensures Colon(false) == [COLON]
  {
  }

  /** For every tree either text without its blanks is the compact text, which so has none. */
  lemma CompactIsStripped(c: Libc.Calls, n: Node, pretty: bool)
    requires Libc.Contract(c)
    ensures Stripped(ValueText(c, n, 0, pretty), 0) == ValueText(c, n, 0, false)
  {
    hide Libc.Contract, ValueText;
    var t := ValueText(c, n, 0, pretty);
    assert t[0..|t|] == t;
    StripsValue(c, t, 0, n, 0, pretty);
  }

  // ---- Shortest forms ----

  /** Of the ways section 7 of RFC 8259 has to write a byte, the printer takes the shortest, and letters of
      hex digits are small. */
  lemma EscapeIsShortest(c: Byte, u: Bytes)
    requires Rfc8259Char(u, c)
    ensures |EscapedByte(c)| <= |u|
    ensures forall i :: 0 <= i < |EscapedByte(c)| && |EscapedByte(c)| == 6 ==> !(65 <= EscapedByte(c)[i] <= 70)
  {
  }

  lemma {:induction false} ShortestFrom(c: Libc.Calls, d: Double, from: nat) returns (prec: nat)
    requires from <= 17
    ensures from <= prec <= 17 && Shortest(c, d, from) == c.format(prec, d) && (prec < 17 ==> c.strtod(c.format(prec, d)) == d)
    ensures forall k :: from <= k < prec ==> c.strtod(c.format(k, d)) != d
    decreases 17 - from
  {
    if from == 17 || c.strtod(c.format(from, d)) == d {
      prec := from;
    } else {
      prec := ShortestFrom(c, d, from + 1);
    }
  }

  /** A finite double is printed with the fewest significant digits, from 1 to 17, that read back as it. */
  lemma FewestDigits(c: Libc.Calls, d: Double) returns (prec: nat)
    requires Libc.Contract(c) && Libc.IsFinite(d)
    ensures 1 <= prec <= 17 && FloatText(c, d) == FloatLiteral(c.format(prec, d)) && c.strtod(c.format(prec, d)) == d
    ensures forall k :: 1 <= k < prec ==> c.strtod(c.format(k, d)) != d
  {
    hide FloatLiteral, Libc.IsFinite;
    prec := ShortestFrom(c, d, 1);
  }
}
