/** MessagePack writing and reading as functions: what the bytes of a tree are
    (src/msgpack/msgpack_serialize.cpp) and what tree some bytes are (src/msgpack/msgpack_parse.cpp). */
module MsgPackCodec {
  import opened ByteStrings
  import opened DataNodes

  const MAX_DEPTH: nat := 256
  const TWO_16: nat := 0x1_0000
  const TWO_32: nat := 0x1_0000_0000
  const TWO_64: nat := 0x1_0000_0000_0000_0000

  // ---- Big-endian integers ----
  // The Euclidean `/` and `%` give the two's complement bytes of a negative number.

  function U8(v: int): (r: Bytes)
    ensures |r| == 1
  {
    [v % 256]
  }

  function U16(v: int): (r: Bytes)
    ensures |r| == 2
  {
    [v / 256 % 256, v % 256]
  }

  function U32(v: int): (r: Bytes)
    ensures |r| == 4
  {
    U16(v / TWO_16) + U16(v)
  }

  function U64(v: int): (r: Bytes)
    ensures |r| == 8
  {
    U32(v / TWO_32) + U32(v)
  }

  function Get16(b: Bytes, p: nat): (r: nat)
    requires p + 2 <= |b|
    ensures r < TWO_16
  {
    b[p] as int * 256 + b[p + 1]
  }

  function Get32(b: Bytes, p: nat): (r: nat)
    requires p + 4 <= |b|
    ensures r < TWO_32
  {
    Get16(b, p) * TWO_16 + Get16(b, p + 2)
  }

  function Get64(b: Bytes, p: nat): (r: nat)
    requires p + 8 <= |b|
    ensures r < TWO_64
  {
    Get32(b, p) * TWO_32 + Get32(b, p + 4)
  }

  /** The signed reading of an unsigned number below 2 * half. */
  function Signed(v: nat, half: nat): int {
    if v < half then v else v - 2 * half
  }

  // ---- Writing ----

  function StrBytes(s: Bytes): Bytes {
    StrHeader(|s|) + s
  }

  function StrHeader(len: nat): Bytes {
    if len <= 31 then [0xa0 + len]
    else if len <= 0xff then [0xd9] + U8(len)
    else if len <= 0xffff then [0xda] + U16(len)
    else [0xdb] + U32(len)
  }

  function BinHeader(len: nat): Bytes {
    if len <= 0xff then [0xc4] + U8(len)
    else if len <= 0xffff then [0xc5] + U16(len)
    else [0xc6] + U32(len)
  }

  function ArrayHeader(count: nat): Bytes {
    if count <= 15 then [0x90 + count]
    else if count <= 0xffff then [0xdc] + U16(count)
    else [0xdd] + U32(count)
  }

  function MapHeader(count: nat): Bytes {
    if count <= 15 then [0x80 + count]
    else if count <= 0xffff then [0xde] + U16(count)
    else [0xdf] + U32(count)
  }

  function IntBytes(v: Int64): Bytes {
    if v >= 0 then
      if v <= 0x7f then U8(v)
      else if v <= 0xff then [0xcc] + U8(v)
      else if v <= 0xffff then [0xcd] + U16(v)
      else if v <= 0xffff_ffff then [0xce] + U32(v)
      else [0xcf] + U64(v)
    else
      if v >= -32 then U8(v)
      else if v >= -128 then [0xd0] + U8(v)
      else if v >= -32768 then [0xd1] + U16(v)
      else if v >= -0x8000_0000 then [0xd2] + U32(v)
      else [0xd3] + U64(v)
  }

  function Serialize(n: Node): Bytes
    decreases n, 0
  {
    match n
    case Null => [0xc0]
    case Bool(b) => [if b then 0xc3 else 0xc2]
    case Int(i) => IntBytes(i)
    case Float(d) => [0xcb] + U64(d)
    case Str(s) => StrBytes(s)
    case Array(xs) => ArrayHeader(|xs|) + ElemBytes(xs, 0)
    case Object(fs) => MapHeader(|fs|) + FieldBytes(fs, 0)
    case IntMap(ps) => MapHeader(|ps|) + PairBytes(ps, 0)
    case Binary(s) => BinHeader(|s|) + s
  }

  /** The bytes of the elements from index k on. */
  function ElemBytes(xs: seq<Node>, k: nat): Bytes
    requires k <= |xs|
    decreases xs, |xs| - k
  {
    if k == |xs| then [] else Serialize(xs[k]) + ElemBytes(xs, k + 1)
  }

  function FieldBytes(fs: seq<Field>, k: nat): Bytes
    requires k <= |fs|
    decreases fs, |fs| - k
  {
    if k == |fs| then [] else StrBytes(fs[k].key) + Serialize(fs[k].val) + FieldBytes(fs, k + 1)
  }

  function PairBytes(ps: seq<Pair>, k: nat): Bytes
    requires k <= |ps|
    decreases ps, |ps| - k
  {
    if k == |ps| then []
    else
      assert ps decreases to ps[k];
      IntBytes(ps[k].ikey) + Serialize(ps[k].ival) + PairBytes(ps, k + 1)
  }

  // ---- Reading ----

  type Single = f: int | 0 <= f < 0x1_0000_0000

  /** The element limit in force, and the hardware's conversion of a float32 pattern to a float64 one. */
  datatype Config = Config(maxElements: nat, widen: Single -> Double)

  /** Nothing, or a value, the position after it and how many float32 items were read on the way. */
  datatype Read = Fail | Got(value: Value, next: nat, narrow: nat)

  function ReadStr(b: Bytes, p: nat, len: nat): Read {
    if p + len <= |b| then Got(VStr(b[p..p + len]), p + len, 0) else Fail
  }

  function ReadBin(b: Bytes, p: nat, len: nat): Read {
    if p + len <= |b| then Got(VBinary(b[p..p + len]), p + len, 0) else Fail
  }

  function ReadInt(v: int, next: nat): Read
    requires -0x8000_0000_0000_0000 <= v < 0x8000_0000_0000_0000
  {
    Got(VInt(v), next, 0)
  }

  function ReadNode(cfg: Config, b: Bytes, pos: nat, depth: nat): (r: Read)
    ensures r.Got? ==> pos < r.next <= |b|
    decreases |b| - pos, 1
  {
    if depth > MAX_DEPTH || pos >= |b| then Fail
    else
      var t: nat, p := b[pos], pos + 1;
      if t <= 0x7f then ReadInt(t, p)
      else if t >= 0xe0 then ReadInt(t - 256, p)
      else if t <= 0x8f then ReadMap(cfg, b, p, t - 0x80, depth)
      else if t <= 0x9f then ReadArray(cfg, b, p, t - 0x90, depth)
      else if t <= 0xbf then ReadStr(b, p, t - 0xa0)
      else if t <= 0xd3 then ReadFixed(cfg, b, p, t)
      else ReadSized(cfg, b, p, t, depth)
  }

  /** Tags 0xc0 to 0xd3: constants, binary strings and fixed-width numbers. */
  function ReadFixed(cfg: Config, b: Bytes, p: nat, t: nat): (r: Read)
    requires p <= |b| && 0xc0 <= t <= 0xd3
    ensures r.Got? ==> p <= r.next <= |b|
  {
    var left := |b| - p;
    if t == 0xc0 then Got(VNull, p, 0)
    else if t == 0xc2 then Got(VBool(false), p, 0)
    else if t == 0xc3 then Got(VBool(true), p, 0)
    else if t == 0xc4 && left >= 1 then ReadBin(b, p + 1, b[p])
    else if t == 0xc5 && left >= 2 then ReadBin(b, p + 2, Get16(b, p))
    else if t == 0xc6 && left >= 4 then ReadBin(b, p + 4, Get32(b, p))
    else if t == 0xca && left >= 4 then Got(VFloat(cfg.widen(Get32(b, p))), p + 4, 1)
    else if t == 0xcb && left >= 8 then Got(VFloat(Get64(b, p)), p + 8, 0)
    else if t == 0xcc && left >= 1 then ReadInt(b[p], p + 1)
    else if t == 0xcd && left >= 2 then ReadInt(Get16(b, p), p + 2)
    else if t == 0xce && left >= 4 then ReadInt(Get32(b, p), p + 4)
    else if t == 0xcf && left >= 8 then ReadInt(Signed(Get64(b, p), TWO_64 / 2), p + 8)
    else if t == 0xd0 && left >= 1 then ReadInt(Signed(b[p], 128), p + 1)
    else if t == 0xd1 && left >= 2 then ReadInt(Signed(Get16(b, p), TWO_16 / 2), p + 2)
    else if t == 0xd2 && left >= 4 then ReadInt(Signed(Get32(b, p), TWO_32 / 2), p + 4)
    else if t == 0xd3 && left >= 8 then ReadInt(Signed(Get64(b, p), TWO_64 / 2), p + 8)
    else Fail
  }

  /** Tags 0xd4 to 0xdf: strings, arrays and maps whose size follows the tag. */
  function ReadSized(cfg: Config, b: Bytes, p: nat, t: nat, depth: nat): (r: Read)
    requires p <= |b|
    ensures r.Got? ==> p <= r.next <= |b|
    decreases |b| - p, 4
  {
    var left := |b| - p;
    if t == 0xd9 && left >= 1 then ReadStr(b, p + 1, b[p])
    else if t == 0xda && left >= 2 then ReadStr(b, p + 2, Get16(b, p))
    else if t == 0xdb && left >= 4 then ReadStr(b, p + 4, Get32(b, p))
    else if t == 0xdc && left >= 2 then ReadArray(cfg, b, p + 2, Get16(b, p), depth)
    else if t == 0xdd && left >= 4 then ReadArray(cfg, b, p + 4, Get32(b, p), depth)
    else if t == 0xde && left >= 2 then ReadMap(cfg, b, p + 2, Get16(b, p), depth)
    else if t == 0xdf && left >= 4 then ReadMap(cfg, b, p + 4, Get32(b, p), depth)
    else Fail
  }

  function ReadArray(cfg: Config, b: Bytes, p: nat, count: nat, depth: nat): (r: Read)
    requires p <= |b|
    ensures r.Got? ==> p <= r.next <= |b|
    decreases |b| - p, 3
  {
    if count > cfg.maxElements then Fail else ReadElems(cfg, b, p, count, depth, [], 0)
  }

  function ReadElems(cfg: Config, b: Bytes, p: nat, count: nat, depth: nat, acc: seq<Value>, narrow: nat): (r: Read)
    requires p <= |b|
    ensures r.Got? ==> p <= r.next <= |b|
    decreases |b| - p, 2
  {
    if count == 0 then Got(VArray(acc), p, narrow)
    else
      var e := ReadNode(cfg, b, p, depth + 1);
      if e.Fail? then Fail
      else ReadElems(cfg, b, e.next, count - 1, depth, acc + [e.value], narrow + e.narrow)
  }

  /** Whether the first key byte of a map announces integer keys. */
  predicate IntKeyTag(t: Byte) {
    t <= 0x7f || t >= 0xe0 || 0xcc <= t <= 0xd3
  }

  predicate StrKeyTag(t: Byte) {
    0xa0 <= t <= 0xbf || 0xd9 <= t <= 0xdb
  }

  function ReadMap(cfg: Config, b: Bytes, p: nat, count: nat, depth: nat): (r: Read)
    requires p <= |b|
    ensures r.Got? ==> p <= r.next <= |b|
    decreases |b| - p, 3
  {
    if count == 0 then Got(VObject(map[]), p, 0)
    else if count > cfg.maxElements || p >= |b| then Fail
    else if IntKeyTag(b[p]) then ReadPairs(cfg, b, p, count, depth, map[], 0)
    else if StrKeyTag(b[p]) then ReadFields(cfg, b, p, count, depth, map[], 0)
    else Fail
  }

  function ReadPairs(cfg: Config, b: Bytes, p: nat, count: nat, depth: nat, acc: map<Int64, Value>, narrow: nat): (r: Read)
    requires p <= |b|
    ensures r.Got? ==> p <= r.next <= |b|
    decreases |b| - p, 2
  {
    if count == 0 then Got(VIntMap(acc), p, narrow)
    else
      var k := ReadNode(cfg, b, p, depth + 1);
      if k.Fail? || !k.value.VInt? then Fail
      else
        var v := ReadNode(cfg, b, k.next, depth + 1);
        if v.Fail? then Fail
        else ReadPairs(cfg, b, v.next, count - 1, depth, acc[k.value.i := v.value], narrow + v.narrow)
  }

  function ReadFields(cfg: Config, b: Bytes, p: nat, count: nat, depth: nat, acc: map<Bytes, Value>, narrow: nat): (r: Read)
    requires p <= |b|
    ensures r.Got? ==> p <= r.next <= |b|
    decreases |b| - p, 2
  {
    if count == 0 then Got(VObject(acc), p, narrow)
    else
      var k := ReadNode(cfg, b, p, depth + 1);
      if k.Fail? || !k.value.VStr? then Fail
      else
        var v := ReadNode(cfg, b, k.next, depth + 1);
        if v.Fail? then Fail
        else ReadFields(cfg, b, v.next, count - 1, depth, acc[k.value.s := v.value], narrow + v.narrow)
  }

  /** A whole input: it must be used up. */
  function Parse(cfg: Config, b: Bytes): Option<Value> {
    var r := ReadNode(cfg, b, 0, 0);
    if r.Got? && r.next == |b| then Some(r.value) else None
  }
}
