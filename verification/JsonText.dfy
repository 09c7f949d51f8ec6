/** The JSON text of a tree, compact or indented (the serializer in src/data/data_node.cpp). */
module JsonText {
  import opened ByteStrings
  import opened DataNodes
  import opened Ascii
  import Libc

  const MAX_DEPTH: nat := 128

  // ---- Strings ----

  function HexDigit(v: nat): (c: Byte)
    requires v < 16
  {
    if v < 10 then 48 + v else 87 + v
  }

  function EscapedByte(c: Byte): Bytes {
    if c == QUOTE || c == BACKSLASH then [BACKSLASH, c]
    else if c == 8 then [BACKSLASH, 98]
    else if c == 12 then [BACKSLASH, 102]
    else if c == LF then [BACKSLASH, 110]
    else if c == CR then [BACKSLASH, 114]
    else if c == TAB then [BACKSLASH, 116]
    else if c < 32 then [BACKSLASH, 117, ZERO, ZERO, HexDigit(c / 16), HexDigit(c % 16)]
    else [c]
  }

  /** The escaped bytes of s from index k on. */
  function Escaped(s: Bytes, k: nat): Bytes
    requires k <= |s|
    decreases |s| - k
  {
    if k == |s| then [] else EscapedByte(s[k]) + Escaped(s, k + 1)
  }

  function StringText(s: Bytes): Bytes {
    [QUOTE] + Escaped(s, 0) + [QUOTE]
  }

  // ---- Numbers ----

  function Digits(n: nat): (r: Bytes)
    ensures |r| > 0
  {
    if n < 10 then [48 + n] else Digits(n / 10) + [48 + n % 10]
  }

  function IntText(i: Int64): Bytes {
    if i < 0 then [MINUS] + Digits(-(i as int)) else Digits(i)
  }

  /** The first precision from `prec` on whose text reads back as d, or the last one tried. */
  function Shortest(c: Libc.Calls, d: Double, prec: nat): Bytes
    requires prec <= 17
    decreases 17 - prec
  {
    if prec == 17 || c.strtod(c.format(prec, d)) == d then c.format(prec, d) else Shortest(c, d, prec + 1)
  }

  function ExponentAt(s: Bytes, k: nat): (r: nat)
    requires k <= |s|
    ensures k <= r <= |s|
    decreases |s| - k
  {
    if k == |s| || IsExp(s[k]) then k else ExponentAt(s, k + 1)
  }

  /** Drops a plus sign after the exponent letter and adds ".0" if there is neither point nor exponent. */
  function FloatLiteral(s: Bytes): Bytes {
    var e := ExponentAt(s, 0);
    var plain := if e + 1 < |s| && s[e + 1] == PLUS then s[..e + 1] + s[e + 2..] else s;
    if e == |s| && DOT !in s then plain + [DOT, ZERO] else plain
  }

  function FloatText(c: Libc.Calls, d: Double): Bytes {
    if Libc.IsFinite(d) then FloatLiteral(Shortest(c, d, 1)) else NULL_TEXT
  }

  // ---- Values ----

  function Spaces(n: nat): (r: Bytes)
    ensures |r| == n && forall i :: 0 <= i < n ==> r[i] == SPACE
  {
    seq(n, _ => SPACE)
  }

  /** A line break and the indentation of a line at `depth`, in the indented form only. */
  function LineStart(pretty: bool, depth: nat): Bytes {
    if pretty then [LF] + Spaces(4 * depth) else []
  }

  function Separator(pretty: bool, first: bool, depth: nat): Bytes {
    (if first then [] else [COMMA]) + LineStart(pretty, depth)
  }

  function Colon(pretty: bool): Bytes {
    if pretty then [COLON, SPACE] else [COLON]
  }

  /** Trees deeper than the limit and kinds JSON has no notation for are printed as null. */
  function ValueText(c: Libc.Calls, n: Node, depth: nat, pretty: bool): Bytes
    decreases n, 0
  {
    if depth > MAX_DEPTH then NULL_TEXT
    else
      match n
      case Null => NULL_TEXT
      case Bool(b) => if b then TRUE_TEXT else FALSE_TEXT
      case Int(i) => IntText(i)
      case Float(d) => FloatText(c, d)
      case Str(s) => StringText(s)
      case Array(xs) => [LBRACKET] + ElemsText(c, xs, 0, depth, pretty)
      case Object(fs) => [LBRACE] + FieldsText(c, fs, 0, depth, pretty)
      case IntMap(_) => NULL_TEXT
      case Binary(_) => NULL_TEXT
  }

  /** What closes a container: an empty one is closed on the line it was opened on. */
  function Closing(pretty: bool, empty: bool, depth: nat, bracket: Byte): Bytes {
    LineStart(pretty && !empty, depth) + [bracket]
  }

  /** Everything of an array from its element k on, with the closing bracket. */
  function ElemsText(c: Libc.Calls, xs: seq<Node>, k: nat, depth: nat, pretty: bool): Bytes
    requires k <= |xs|
    decreases xs, |xs| - k
  {
    if k == |xs| then Closing(pretty, xs == [], depth, RBRACKET)
    else Separator(pretty, k == 0, depth + 1) + (ValueText(c, xs[k], depth + 1, pretty) + ElemsText(c, xs, k + 1, depth, pretty))
  }

  function FieldsText(c: Libc.Calls, fs: seq<Field>, k: nat, depth: nat, pretty: bool): Bytes
    requires k <= |fs|
    decreases fs, |fs| - k
  {
    if k == |fs| then Closing(pretty, fs == [], depth, RBRACE)
    else Separator(pretty, k == 0, depth + 1) + (StringText(fs[k].key) + (Colon(pretty) +
         (ValueText(c, fs[k].val, depth + 1, pretty) + FieldsText(c, fs, k + 1, depth, pretty))))
  }

  /** One item split off the text of a container that follows `out`. */
  lemma ElemsTextStep(c: Libc.Calls, xs: seq<Node>, k: nat, depth: nat, pretty: bool, out: Bytes)
    requires k < |xs|
    ensures out + ElemsText(c, xs, k, depth, pretty)
         == out + Separator(pretty, k == 0, depth + 1) + ValueText(c, xs[k], depth + 1, pretty) + ElemsText(c, xs, k + 1, depth, pretty)
  {
    hide ValueText, Separator;
  }

  lemma FieldsTextStep(c: Libc.Calls, fs: seq<Field>, k: nat, depth: nat, pretty: bool, out: Bytes)
    requires k < |fs|
    ensures out + FieldsText(c, fs, k, depth, pretty)
         == out + Separator(pretty, k == 0, depth + 1) + StringText(fs[k].key) + Colon(pretty)
          + ValueText(c, fs[k].val, depth + 1, pretty) + FieldsText(c, fs, k + 1, depth, pretty)
  {
    hide ValueText, Separator, StringText, Colon;
  }

  lemma TextEnd(c: Libc.Calls, xs: seq<Node>, fs: seq<Field>, depth: nat, pretty: bool)
    ensures ElemsText(c, xs, |xs|, depth, pretty) == Closing(pretty, xs == [], depth, RBRACKET)
    ensures FieldsText(c, fs, |fs|, depth, pretty) == Closing(pretty, fs == [], depth, RBRACE)
  {
    hide Closing;
  }

  // ---- What the text stands for ----

  /** The tree with exactly these replaced by null: nodes below the depth limit, integer-keyed maps,
      binaries and numbers that are not finite. */
  function Shown(n: Node, depth: nat): Value
    decreases n, 0
  {
    if depth > MAX_DEPTH then VNull
    else
      match n
      case Null => VNull
      case Bool(b) => VBool(b)
      case Int(i) => VInt(i)
      case Float(d) => if Libc.IsFinite(d) then VFloat(d) else VNull
      case Str(s) => VStr(s)
      case Array(xs) => VArray(ShownElems(xs, |xs|, depth))
      case Object(fs) => VObject(ShownFields(fs, |fs|, depth))
      case IntMap(_) => VNull
      case Binary(_) => VNull
  }

  function ShownElems(xs: seq<Node>, k: nat, depth: nat): seq<Value>
    requires k <= |xs|
    decreases xs, k
  {
    if k == 0 then [] else ShownElems(xs, k - 1, depth) + [Shown(xs[k - 1], depth + 1)]
  }

  function ShownFields(fs: seq<Field>, k: nat, depth: nat): map<Bytes, Value>
    requires k <= |fs|
    decreases fs, k
  {
    if k == 0 then map[] else ShownFields(fs, k - 1, depth)[fs[k - 1].key := Shown(fs[k - 1].val, depth + 1)]
  }
}
