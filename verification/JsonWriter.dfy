/** The JSON printer as the code runs it, appending to a string. */
module JsonWriter {
  import opened ByteStrings
  import opened DataNodes
  import opened Ascii
  import opened JsonText
  import Libc

  class Writer {
    const libc: Libc.Calls
    var out: Bytes

    constructor (libc: Libc.Calls)
      ensures this.libc == libc && out == []
    {
      this.libc := libc;
      out := [];
    }

    method SerializeString(s: Bytes)
      modifies this
      ensures out == old(out) + StringText(s)
    {
      hide EscapedByte;
      out := out + [QUOTE];
      ghost var whole := out + Escaped(s, 0);
      var i := 0;
      while i < |s|
        invariant 0 <= i <= |s|
        invariant out + Escaped(s, i) == whole
      {
        AppendEscaped(s[i]);
        i := i + 1;
      }
      assert out == whole;
      out := out + [QUOTE];
      assert out == old(out) + ([QUOTE] + Escaped(s, 0) + [QUOTE]);
    }

    method AppendEscaped(c: Byte)
      modifies this
      ensures out == old(out) + EscapedByte(c)
    {
      if c == QUOTE {
        out := out + [BACKSLASH, QUOTE];
      } else if c == BACKSLASH {
        out := out + [BACKSLASH, BACKSLASH];
      } else if c == 8 {
        out := out + [BACKSLASH, 98];
      } else if c == 12 {
        out := out + [BACKSLASH, 102];
      } else if c == LF {
        out := out + [BACKSLASH, 110];
      } else if c == CR {
        out := out + [BACKSLASH, 114];
      } else if c == TAB {
        out := out + [BACKSLASH, 116];
      } else if c < 0x20 {
        out := out + [BACKSLASH, 117, ZERO, ZERO, HexDigit(c / 16), HexDigit(c % 16)];
      } else {
        out := out + [c];
      }
    }

    /** Tries precisions from 1 to 17 until one reads back, then tidies the exponent and the point. */
    method AppendFloat(d: Double)
      requires Libc.IsFinite(d)
      modifies this
      ensures out == old(out) + FloatText(libc, d)
    {
      hide ExponentAt, Libc.IsFinite;
      var prec := 1;
      var buf := libc.format(prec, d);
      while prec < 17 && libc.strtod(buf) != d
        invariant 1 <= prec <= 17 && buf == libc.format(prec, d)
        invariant Shortest(libc, d, prec) == Shortest(libc, d, 1)
      {
        prec := prec + 1;
        buf := libc.format(prec, d);
      }
      var e := FindExponent(buf);
      var hasExp := e < |buf|;
      var hasDot := DOT in buf[..e];
      ghost var printed := buf;
      if hasExp && e + 1 < |buf| && buf[e + 1] == PLUS {
        buf := buf[..e + 1] + buf[e + 2..];
      }
      out := out + buf;
      assert e == |printed| ==> printed[..e] == printed;
      if !hasDot && !hasExp {
        out := out + [DOT, ZERO];
      }
    }

    method FindExponent(s: Bytes) returns (e: nat)
      ensures e == ExponentAt(s, 0)
    {
      e := 0;
      while e < |s| && !IsExp(s[e])
        invariant e <= |s| && ExponentAt(s, e) == ExponentAt(s, 0)
      {
        e := e + 1;
      }
    }

    method SerializeLeaf(n: Node, ghost depth: nat, ghost pretty: bool)
      requires !n.Array? && !n.Object? && depth <= MAX_DEPTH
      modifies this
      ensures out == old(out) + ValueText(libc, n, depth, pretty)
    {
      hide StringText, IntText;
      match n
      case Null => out := out + NULL_TEXT;
      case Bool(b) => out := out + (if b then TRUE_TEXT else FALSE_TEXT);
      case Int(i) => out := out + IntText(i);
      case Float(d) =>
        if !Libc.IsFinite(d) {
          out := out + NULL_TEXT;
        } else {
          AppendFloat(d);
        }
      case Str(s) => SerializeString(s);
      case IntMap(_) => out := out + NULL_TEXT;
      case Binary(_) => out := out + NULL_TEXT;
    }

    /** Compact text. */
    method SerializeValue(n: Node, depth: nat)
      modifies this
      ensures out == old(out) + ValueText(libc, n, depth, false)
      decreases n, 0
    {
      hide ElemsText, FieldsText, FloatText, IntText, StringText;
      if depth > MAX_DEPTH {
        out := out + NULL_TEXT;
        return;
      }
      match n
      case Array(xs) =>
        out := out + [LBRACKET];
        SerializeElems(xs, depth);
      case Object(fs) =>
        out := out + [LBRACE];
        SerializeFields(fs, depth);
      case _ => SerializeLeaf(n, depth, false);
    }

    method SerializeElems(xs: seq<Node>, depth: nat)
      modifies this
      ensures out == old(out) + ElemsText(libc, xs, 0, depth, false)
      decreases xs, |xs| + 1
    {
      hide ValueText, ElemsText;
      var i := 0;
      while i < |xs|
        invariant 0 <= i <= |xs|
        invariant out + ElemsText(libc, xs, i, depth, false) == old(out) + ElemsText(libc, xs, 0, depth, false)
      {
        ghost var before := out;
        if i > 0 {
          out := out + [COMMA];
        }
        SerializeValue(xs[i], depth + 1);
        ElemsTextStep(libc, xs, i, depth, false, before);
        i := i + 1;
      }
      TextEnd(libc, xs, [], depth, false);
      out := out + [RBRACKET];
    }

    method SerializeFields(fs: seq<Field>, depth: nat)
      modifies this
      ensures out == old(out) + FieldsText(libc, fs, 0, depth, false)
      decreases fs, |fs| + 1
    {
      hide ValueText, StringText, FieldsText;
      var i := 0;
      while i < |fs|
        invariant 0 <= i <= |fs|
        invariant out + FieldsText(libc, fs, i, depth, false) == old(out) + FieldsText(libc, fs, 0, depth, false)
      {
        ghost var before := out;
        if i > 0 {
          out := out + [COMMA];
        }
        SerializeString(fs[i].key);
        out := out + [COLON];
        SerializeValue(fs[i].val, depth + 1);
        FieldsTextStep(libc, fs, i, depth, false, before);
        i := i + 1;
      }
      TextEnd(libc, [], fs, depth, false);
      out := out + [RBRACE];
    }

    /** Indented text. */
    method SerializeValuePretty(n: Node, depth: nat)
      modifies this
      ensures out == old(out) + ValueText(libc, n, depth, true)
      decreases n, 0
    {
      hide ElemsText, FieldsText, FloatText, IntText, StringText;
      if depth > MAX_DEPTH {
        out := out + NULL_TEXT;
        return;
      }
      match n
      case Array(xs) => SerializeElemsPretty(xs, depth);
      case Object(fs) => SerializeFieldsPretty(fs, depth);
      case _ => SerializeLeaf(n, depth, true);
    }

    method StartLine(depth: nat)
      modifies this
      ensures out == old(out) + LineStart(true, depth)
    {
      out := out + [LF];
      out := out + Spaces(4 * depth);
    }

    method SerializeElemsPretty(xs: seq<Node>, depth: nat)
      modifies this
      ensures out == old(out) + ([LBRACKET] + ElemsText(libc, xs, 0, depth, true))
      decreases xs, |xs| + 1
    {
      hide ValueText, LineStart, ElemsText;
      out := out + [LBRACKET];
      TextEnd(libc, xs, [], depth, true);
      if xs == [] {
        NoLineStart(depth);
        out := out + [RBRACKET];
        return;
      }
      ghost var whole := out + ElemsText(libc, xs, 0, depth, true);
      var i := 0;
      while i < |xs|
        invariant 0 <= i <= |xs|
        invariant out + ElemsText(libc, xs, i, depth, true) == whole
      {
        ghost var before := out;
        if i > 0 {
          out := out + [COMMA];
        }
        StartLine(depth + 1);
        assert out == before + Separator(true, i == 0, depth + 1);
        SerializeValuePretty(xs[i], depth + 1);
        ElemsTextStep(libc, xs, i, depth, true, before);
        i := i + 1;
      }
      ghost var items := out;
      StartLine(depth);
      out := out + [RBRACKET];
      assert out == items + Closing(true, false, depth, RBRACKET);
    }

    method SerializeFieldsPretty(fs: seq<Field>, depth: nat)
      modifies this
      ensures out == old(out) + ([LBRACE] + FieldsText(libc, fs, 0, depth, true))
      decreases fs, |fs| + 1
    {
      hide ValueText, StringText, LineStart, FieldsText;
      out := out + [LBRACE];
      TextEnd(libc, [], fs, depth, true);
      if fs == [] {
        NoLineStart(depth);
        out := out + [RBRACE];
        return;
      }
      ghost var whole := out + FieldsText(libc, fs, 0, depth, true);
      var i := 0;
      while i < |fs|
        invariant 0 <= i <= |fs|
        invariant out + FieldsText(libc, fs, i, depth, true) == whole
      {
        ghost var before := out;
        if i > 0 {
          out := out + [COMMA];
        }
        StartLine(depth + 1);
        assert out == before + Separator(true, i == 0, depth + 1);
        SerializeString(fs[i].key);
        out := out + [COLON, SPACE];
        SerializeValuePretty(fs[i].val, depth + 1);
        FieldsTextStep(libc, fs, i, depth, true, before);
        i := i + 1;
      }
      ghost var items := out;
      StartLine(depth);
      out := out + [RBRACE];
      assert out == items + Closing(true, false, depth, RBRACE);
    }

    lemma NoLineStart(depth: nat)
      ensures LineStart(false, depth) == []
    {
    }
  }

  method DataSerializeJson(libc: Libc.Calls, n: Node, pretty: bool) returns (result: Bytes)
    ensures result == ValueText(libc, n, 0, pretty)
  {
    hide ValueText;
    var w := new Writer(libc);
    if pretty {
      w.SerializeValuePretty(n, 0);
    } else {
      w.SerializeValue(n, 0);
    }
    result := w.out;
  }
}
