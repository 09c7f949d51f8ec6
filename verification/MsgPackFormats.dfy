/** The MessagePack formats as the specification lists them, for every way to write a value, and what
    each means to this reader. */
module MsgPackFormats {
  import opened ByteStrings
  import opened DataNodes
  import opened MsgPackCodec

  /** The last `width` bytes of a number in two's complement, the most significant first. */
  function BigEndian(v: int, width: nat): (r: Bytes)
    ensures |r| == width
    decreases width
  {
    if width == 0 then [] else BigEndian(v / 256, width - 1) + [v % 256]
  }

  /** How a size is written: in the tag, or in 1, 2 or 4 bytes behind it. */
  datatype Form = InTag | In8 | In16 | In32

  /** One encoded object. */
  datatype Item =
    | Nil
    | Truth(b: bool)
    | FixInt(v: int)
    | UInt(width: nat, u: nat)
    | SInt(width: nat, v: int)
    | Float32(f: Single)
    | Float64(d: Double)
    | StrItem(form: Form, s: Bytes)
    | BinItem(form: Form, bin: Bytes)
    | ArrayItem(form: Form, elems: seq<Item>)
    | MapItem(form: Form, entries: seq<Entry>)

  datatype Entry = Entry(key: Item, val: Item)

  // ---- The bytes ----

  /** A tag, or a tag and a size. */
  function Head(form: Form, fix: nat, t8: Byte, t16: Byte, t32: Byte, n: nat): Bytes
    requires form == InTag ==> fix + n < 256
  {
    match form
    case InTag => [fix + n]
    case In8 => [t8] + BigEndian(n, 1)
    case In16 => [t16] + BigEndian(n, 2)
    case In32 => [t32] + BigEndian(n, 4)
  }

  function Encoded(i: Item): Bytes
    requires Sound(i)
    decreases i, 0
  {
    match i
    case Nil => [0xc0]
    case Truth(b) => [if b then 0xc3 else 0xc2]
    case FixInt(v) => BigEndian(v, 1)
    case UInt(w, u) => [if w == 1 then 0xcc else if w == 2 then 0xcd else if w == 4 then 0xce else 0xcf] + BigEndian(u, w)
    case SInt(w, v) => [if w == 1 then 0xd0 else if w == 2 then 0xd1 else if w == 4 then 0xd2 else 0xd3] + BigEndian(v, w)
    case Float32(f) => [0xca] + BigEndian(f, 4)
    case Float64(d) => [0xcb] + BigEndian(d, 8)
    case StrItem(form, s) => Head(form, 0xa0, 0xd9, 0xda, 0xdb, |s|) + s
    case BinItem(form, s) => Head(form, 0, 0xc4, 0xc5, 0xc6, |s|) + s
    case ArrayItem(form, xs) => Head(form, 0x90, 0, 0xdc, 0xdd, |xs|) + EncodedElems(xs, 0)
    case MapItem(form, es) => Head(form, 0x80, 0, 0xde, 0xdf, |es|) + EncodedEntries(es, 0)
  }

  function EncodedElems(xs: seq<Item>, k: nat): Bytes
    requires k <= |xs| && forall j :: 0 <= j < |xs| ==> Sound(xs[j])
    decreases xs, |xs| - k
  {
    if k == |xs| then [] else Encoded(xs[k]) + EncodedElems(xs, k + 1)
  }

  function EncodedEntries(es: seq<Entry>, k: nat): Bytes
    requires k <= |es| && forall j :: 0 <= j < |es| ==> Sound(es[j].key) && Sound(es[j].val)
    decreases es, |es| - k
  {
    if k == |es| then []
    else
      assert es decreases to es[k];
      Encoded(es[k].key) + Encoded(es[k].val) + EncodedEntries(es, k + 1)
  }

  // ---- Which items there are ----

  predicate FitsForm(form: Form, n: nat, fixMax: int) {
    match form
    case InTag => n <= fixMax
    case In8 => n < 0x100
    case In16 => n < 0x1_0000
    case In32 => n < 0x1_0000_0000
  }

  predicate IntItem(i: Item) {
    i.FixInt? || i.UInt? || i.SInt?
  }

  /** Numbers and sizes fit where they are written, and the keys of a map are all integers or all strings. */
  ghost predicate Sound(i: Item) {
    match i
    case FixInt(v) => -32 <= v < 128
    case UInt(w, u) => (w == 1 && u < 0x100) || (w == 2 && u < TWO_16) || (w == 4 && u < TWO_32) || (w == 8 && u < TWO_64)
    case SInt(w, v) =>
      || (w == 1 && -0x80 <= v < 0x80) || (w == 2 && -0x8000 <= v < 0x8000)
      || (w == 4 && -0x8000_0000 <= v < 0x8000_0000) || (w == 8 && -0x8000_0000_0000_0000 <= v < 0x8000_0000_0000_0000)
    case StrItem(form, s) => FitsForm(form, |s|, 31)
    case BinItem(form, s) => FitsForm(form, |s|, -1)
    case ArrayItem(form, xs) => form != In8 && FitsForm(form, |xs|, 15) && forall j :: 0 <= j < |xs| ==> Sound(xs[j])
    case MapItem(form, es) =>
      && form != In8 && FitsForm(form, |es|, 15)
      && (forall j :: 0 <= j < |es| ==> Sound(es[j].key) && Sound(es[j].val))
      && ((forall j :: 0 <= j < |es| ==> IntItem(es[j].key)) || (forall j :: 0 <= j < |es| ==> es[j].key.StrItem?))
    case _ => true
  }

  /** No item is nested below the depth limit and no container is over the element limit. */
  ghost predicate Within(cfg: Config, i: Item, depth: nat) {
    && depth <= MAX_DEPTH
    && match i
       case ArrayItem(_, xs) => |xs| <= cfg.maxElements && forall j :: 0 <= j < |xs| ==> Within(cfg, xs[j], depth + 1)
       case MapItem(_, es) =>
         && |es| <= cfg.maxElements
         && forall j :: 0 <= j < |es| ==> Within(cfg, es[j].key, depth + 1) && Within(cfg, es[j].val, depth + 1)
       case _ => true
  }

  // ---- What they mean ----

  /** An integer as the 64-bit signed number the tree holds. */
  function Int64Of(v: int): Int64 {
    var low := v % TWO_64;
    if low < TWO_64 / 2 then low else low - TWO_64
  }

  function IntOf(i: Item): Int64
    requires IntItem(i)
  {
    if i.UInt? then Int64Of(i.u) else Int64Of(i.v)
  }

  function Means(cfg: Config, i: Item): Value
    decreases i, 0
  {
    match i
    case Nil => VNull
    case Truth(b) => VBool(b)
    case FixInt(_) => VInt(IntOf(i))
    case UInt(_, _) => VInt(IntOf(i))
    case SInt(_, _) => VInt(IntOf(i))
    case Float32(f) => VFloat(cfg.widen(f))
    case Float64(d) => VFloat(d)
    case StrItem(_, s) => VStr(s)
    case BinItem(_, s) => VBinary(s)
    case ArrayItem(_, xs) => VArray(ElemMeanings(cfg, xs, |xs|))
    case MapItem(_, es) =>
      if es != [] && IntItem(es[0].key) then VIntMap(IntMeanings(cfg, es, |es|)) else VObject(NameMeanings(cfg, es, |es|))
  }

  function ElemMeanings(cfg: Config, xs: seq<Item>, k: nat): (r: seq<Value>)
    requires k <= |xs|
    ensures |r| == k
    decreases xs, k
  {
    if k == 0 then [] else ElemMeanings(cfg, xs, k - 1) + [Means(cfg, xs[k - 1])]
  }

  /** Later entries of a key replace earlier ones. */
  function IntMeanings(cfg: Config, es: seq<Entry>, k: nat): map<Int64, Value>
    requires k <= |es|
    decreases es, k
  {
    if k == 0 then map[]
    else
      assert es decreases to es[k - 1];
      var rest := IntMeanings(cfg, es, k - 1);
      if IntItem(es[k - 1].key) then rest[IntOf(es[k - 1].key) := Means(cfg, es[k - 1].val)] else rest
  }

  function NameMeanings(cfg: Config, es: seq<Entry>, k: nat): map<Bytes, Value>
    requires k <= |es|
    decreases es, k
  {
    if k == 0 then map[]
    else
      assert es decreases to es[k - 1];
      var rest := NameMeanings(cfg, es, k - 1);
      if es[k - 1].key.StrItem? then rest[es[k - 1].key.s := Means(cfg, es[k - 1].val)] else rest
  }

  /** How many float32 items there are. */
  function Narrow(i: Item): nat
    decreases i, 0
  {
    match i
    case Float32(_) => 1
    case ArrayItem(_, xs) => NarrowElems(xs, |xs|)
    case MapItem(_, es) => NarrowEntries(es, |es|)
    case _ => 0
  }

  function NarrowElems(xs: seq<Item>, k: nat): nat
    requires k <= |xs|
    decreases xs, k
  {
    if k == 0 then 0 else NarrowElems(xs, k - 1) + Narrow(xs[k - 1])
  }

  function NarrowEntries(es: seq<Entry>, k: nat): nat
    requires k <= |es|
    decreases es, k
  {
    if k == 0 then 0
    else
      assert es decreases to es[k - 1];
      NarrowEntries(es, k - 1) + Narrow(es[k - 1].val)
  }

  // ---- The codec's numbers are big-endian ----

  lemma LastTwo(v: int, width: nat)
    ensures BigEndian(v, width + 2) == BigEndian(v / TWO_16, width) + U16(v)
  {
    assert v / 256 / 256 == v / TWO_16;
    assert BigEndian(v, width + 2) == BigEndian(v / 256, width + 1) + [v % 256];
    assert BigEndian(v / 256, width + 1) == BigEndian(v / 256 / 256, width) + [v / 256 % 256];
  }

  lemma BigEndian1(v: int)
    ensures BigEndian(v, 1) == U8(v)
  {
    assert BigEndian(v, 1) == BigEndian(v / 256, 0) + [v % 256];
  }

  lemma BigEndian2(v: int)
    ensures BigEndian(v, 2) == U16(v)
  {
    hide U16;
    LastTwo(v, 0);
  }

  lemma BigEndian4(v: int)
    ensures BigEndian(v, 4) == U32(v)
  {
    hide U16, BigEndian;
    LastTwo(v, 2);
    BigEndian2(v / TWO_16);
  }

  lemma BigEndian8(v: int)
    ensures BigEndian(v, 8) == U64(v)
  {
    hide U16, BigEndian;
    LastTwo(v, 6);
    LastTwo(v / TWO_16, 4);
    BigEndian4(v / TWO_32);
    assert v / TWO_16 / TWO_16 == v / TWO_32;
    assert U32(v) == U16(v / TWO_16) + U16(v);
  }

  lemma BigEndianIs(v: int)
    ensures BigEndian(v, 1) == U8(v) && BigEndian(v, 2) == U16(v) && BigEndian(v, 4) == U32(v) && BigEndian(v, 8) == U64(v)
  {
    hide U8, U16, U32, U64, BigEndian;
    BigEndian1(v);
    BigEndian2(v);
    BigEndian4(v);
    BigEndian8(v);
  }
}
