/** Reading undoes writing: whatever follows, exactly the bytes of a tree are consumed and give it back. */
module MsgPackRoundTrip {
  import opened ByteStrings
  import opened DataNodes
  import opened MsgPackCodec

  /** The tree as it comes back: an integer-keyed map without entries has no key to tell its kind. */
  function Wire(n: Node): Value
    decreases n, 0
  {
    match n
    case Null => VNull
    case Bool(b) => VBool(b)
    case Int(i) => VInt(i)
    case Float(d) => VFloat(d)
    case Str(s) => VStr(s)
    case Array(xs) => VArray(WireElems(xs, |xs|))
    case Object(fs) => VObject(WireFields(fs, |fs|))
    case IntMap(ps) => if ps == [] then VObject(map[]) else VIntMap(WirePairs(ps, |ps|))
    case Binary(s) => VBinary(s)
  }

  function WireElems(xs: seq<Node>, k: nat): seq<Value>
    requires k <= |xs|
    decreases xs, k
  {
    if k == 0 then [] else WireElems(xs, k - 1) + [Wire(xs[k - 1])]
  }

  function WireFields(fs: seq<Field>, k: nat): map<Bytes, Value>
    requires k <= |fs|
    decreases fs, k
  {
    if k == 0 then map[] else WireFields(fs, k - 1)[fs[k - 1].key := Wire(fs[k - 1].val)]
  }

  function WirePairs(ps: seq<Pair>, k: nat): map<Int64, Value>
    requires k <= |ps|
    decreases ps, k
  {
    if k == 0 then map[]
    else
      assert ps decreases to ps[k - 1];
      WirePairs(ps, k - 1)[ps[k - 1].ikey := Wire(ps[k - 1].ival)]
  }

  /** Nesting from `depth` on stays within the reader's limit, containers within the element limit,
      and every size fits the 32-bit header. */
  ghost predicate Fits(cfg: Config, n: Node, depth: nat) {
    && depth <= MAX_DEPTH
    && match n
       case Str(s) => |s| < TWO_32
       case Binary(s) => |s| < TWO_32
       case Array(xs) =>
         && |xs| <= cfg.maxElements && |xs| < TWO_32
         && forall i :: 0 <= i < |xs| ==> Fits(cfg, xs[i], depth + 1)
       case Object(fs) =>
         && |fs| <= cfg.maxElements && |fs| < TWO_32
         && forall i :: 0 <= i < |fs| ==> |fs[i].key| < TWO_32 && Fits(cfg, fs[i].val, depth + 1)
       case IntMap(ps) =>
         && |ps| <= cfg.maxElements && |ps| < TWO_32
         && forall i :: 0 <= i < |ps| ==> Fits(cfg, ps[i].ival, depth + 1)
       case _ => true
  }

  // ---- Numbers ----

  lemma Get16Undoes(b: Bytes, p: nat, v: int)
    requires At(b, p, U16(v))
    ensures Get16(b, p) == v % TWO_16
  {
    assert b[p..p + 2][0] == b[p] && b[p..p + 2][1] == b[p + 1];
  }

  lemma Get32Undoes(b: Bytes, p: nat, v: int)
    requires At(b, p, U32(v))
    ensures Get32(b, p) == v % TWO_32
  {
    hide At, U16, Get16;
    AtConcat(b, p, U16(v / TWO_16), U16(v));
    Get16Undoes(b, p, v / TWO_16);
    Get16Undoes(b, p + 2, v);
  }

  lemma Get64Undoes(b: Bytes, p: nat, v: int)
    requires At(b, p, U64(v))
    ensures Get64(b, p) == v % TWO_64
  {
    hide At, U32, Get32;
    AtConcat(b, p, U32(v / TWO_32), U32(v));
    Get32Undoes(b, p, v / TWO_32);
    Get32Undoes(b, p + 4, v);
  }

  lemma ByteUndoes(b: Bytes, p: nat, v: int)
    requires At(b, p, U8(v))
    ensures b[p] == v % 256
  {
    assert b[p..p + 1][0] == b[p];
  }

  /** Splits a tag off what follows it. */
  lemma AtTag(b: Bytes, p: nat, t: Byte, s: Bytes)
    requires At(b, p, [t] + s)
    ensures p < |b| && b[p] == t && At(b, p + 1, s)
  {
    AtConcat(b, p, [t], s);
    assert b[p..p + 1][0] == b[p];
  }

  lemma ReadFixedTag(cfg: Config, b: Bytes, p: nat, depth: nat)
    requires p < |b| && depth <= MAX_DEPTH && 0xc0 <= b[p] <= 0xd3
    ensures ReadNode(cfg, b, p, depth) == ReadFixed(cfg, b, p + 1, b[p])
  {
    hide ReadFixed, ReadMap, ReadArray;
  }

  lemma ReadSmallInt(cfg: Config, b: Bytes, p: nat, depth: nat)
    requires p < |b| && depth <= MAX_DEPTH && (b[p] <= 0x7f || b[p] >= 0xe0)
    ensures ReadNode(cfg, b, p, depth) == Got(VInt(Signed(b[p], 128)), p + 1, 0)
  {
    hide ReadFixed, ReadMap, ReadArray;
  }

  /** The four widths of an integer behind a tag, unsigned and signed. */
  lemma ReadInt8(cfg: Config, b: Bytes, p: nat, v: Int64, depth: nat)
    requires depth <= MAX_DEPTH && -128 <= v <= 0xff && At(b, p, [if v >= 0 then 0xcc else 0xd0] + U8(v))
    ensures IntKeyTag(b[p]) && ReadNode(cfg, b, p, depth) == Got(VInt(v), p + 2, 0)
  {
    hide At, ReadNode, U8, Get16, Get32, Get64;
    AtTag(b, p, if v >= 0 then 0xcc else 0xd0, U8(v));
    ByteUndoes(b, p + 1, v);
    ReadFixedTag(cfg, b, p, depth);
  }

  lemma ReadInt16(cfg: Config, b: Bytes, p: nat, v: Int64, depth: nat)
    requires depth <= MAX_DEPTH && -32768 <= v <= 0xffff && At(b, p, [if v >= 0 then 0xcd else 0xd1] + U16(v))
    ensures IntKeyTag(b[p]) && ReadNode(cfg, b, p, depth) == Got(VInt(v), p + 3, 0)
  {
    hide At, ReadNode, U16, Get16, Get32, Get64;
    AtTag(b, p, if v >= 0 then 0xcd else 0xd1, U16(v));
    Get16Undoes(b, p + 1, v);
    ReadFixedTag(cfg, b, p, depth);
  }

  lemma ReadInt32(cfg: Config, b: Bytes, p: nat, v: Int64, depth: nat)
    requires depth <= MAX_DEPTH && -0x8000_0000 <= v <= 0xffff_ffff && At(b, p, [if v >= 0 then 0xce else 0xd2] + U32(v))
    ensures IntKeyTag(b[p]) && ReadNode(cfg, b, p, depth) == Got(VInt(v), p + 5, 0)
  {
    hide At, ReadNode, U32, Get16, Get32, Get64;
    AtTag(b, p, if v >= 0 then 0xce else 0xd2, U32(v));
    Get32Undoes(b, p + 1, v);
    ReadFixedTag(cfg, b, p, depth);
  }

  lemma ReadInt64(cfg: Config, b: Bytes, p: nat, v: Int64, depth: nat)
    requires depth <= MAX_DEPTH && At(b, p, [if v >= 0 then 0xcf else 0xd3] + U64(v))
    ensures IntKeyTag(b[p]) && ReadNode(cfg, b, p, depth) == Got(VInt(v), p + 9, 0)
  {
    hide At, ReadNode, U64, Get16, Get32, Get64;
    AtTag(b, p, if v >= 0 then 0xcf else 0xd3, U64(v));
    Get64Undoes(b, p + 1, v);
    ReadFixedTag(cfg, b, p, depth);
  }

  lemma ReadIntBytes(cfg: Config, b: Bytes, p: nat, v: Int64, depth: nat)
    requires At(b, p, IntBytes(v)) && depth <= MAX_DEPTH
    ensures IntKeyTag(b[p])
    ensures ReadNode(cfg, b, p, depth) == Got(VInt(v), p + |IntBytes(v)|, 0)
  {
    hide At, ReadNode, U8, U16, U32, U64;
    if -32 <= v <= 0x7f {
      ByteUndoes(b, p, v);
      ReadSmallInt(cfg, b, p, depth);
    } else if -128 <= v <= 0xff {
      ReadInt8(cfg, b, p, v, depth);
    } else if -32768 <= v <= 0xffff {
      ReadInt16(cfg, b, p, v, depth);
    } else if -0x8000_0000 <= v <= 0xffff_ffff {
      ReadInt32(cfg, b, p, v, depth);
    } else {
      ReadInt64(cfg, b, p, v, depth);
    }
  }

  // ---- Strings ----

  lemma ReadSizedTag(cfg: Config, b: Bytes, p: nat, depth: nat)
    requires p < |b| && depth <= MAX_DEPTH && 0xd4 <= b[p] <= 0xdf
    ensures ReadNode(cfg, b, p, depth) == ReadSized(cfg, b, p + 1, b[p], depth)
  {
    hide ReadFixed, ReadMap, ReadArray, ReadSized;
  }

  /** Tags 0x80 to 0xbf carry the size in their low bits. */
  lemma ReadSmallTag(cfg: Config, b: Bytes, p: nat, depth: nat)
    requires p < |b| && depth <= MAX_DEPTH && 0x80 <= b[p] <= 0xbf
    ensures ReadNode(cfg, b, p, depth) ==
            if b[p] <= 0x8f then ReadMap(cfg, b, p + 1, b[p] - 0x80, depth)
            else if b[p] <= 0x9f then ReadArray(cfg, b, p + 1, b[p] - 0x90, depth)
            else ReadStr(b, p + 1, b[p] - 0xa0)
  {
    hide ReadFixed, ReadMap, ReadArray, ReadSized;
  }

  /** One number of 1, 2 or 4 bytes, as the headers use it. */
  lemma SizeUndoes(b: Bytes, p: nat, v: nat)
    ensures At(b, p, U8(v)) && v <= 0xff ==> b[p] == v
    ensures At(b, p, U16(v)) && v <= 0xffff ==> Get16(b, p) == v
    ensures At(b, p, U32(v)) && v < TWO_32 ==> Get32(b, p) == v
  {
    hide At, Get16, Get32, U8, U16, U32;
    if At(b, p, U8(v)) && v <= 0xff { ByteUndoes(b, p, v); }
    if At(b, p, U16(v)) && v <= 0xffff { Get16Undoes(b, p, v); }
    if At(b, p, U32(v)) && v < TWO_32 { Get32Undoes(b, p, v); }
  }

  /** Every header but the shortest is a tag followed by one number. */
  lemma AtHeader(b: Bytes, p: nat, h: Bytes, t: Byte, w: Bytes)
    requires At(b, p, h) && h == [t] + w
    ensures p < |b| && b[p] == t && At(b, p + 1, w) && |h| == 1 + |w|
  {
    AtTag(b, p, t, w);
  }

  lemma ReadStrHeader(cfg: Config, b: Bytes, p: nat, len: nat, depth: nat)
    requires At(b, p, StrHeader(len)) && depth <= MAX_DEPTH && len < TWO_32
    ensures p < |b| && StrKeyTag(b[p]) && !IntKeyTag(b[p])
    ensures ReadNode(cfg, b, p, depth) == ReadStr(b, p + |StrHeader(len)|, len)
  {
    hide At, ReadNode, ReadStr, ReadArray, ReadMap, Get16, Get32, U8, U16, U32;
    SizeUndoes(b, p + 1, len);
    if len <= 31 {
      AtHeader(b, p, StrHeader(len), 0xa0 + len, []);
      ReadSmallTag(cfg, b, p, depth);
      return;
    }
    if len <= 0xff { AtHeader(b, p, StrHeader(len), 0xd9, U8(len)); }
    else if len <= 0xffff { AtHeader(b, p, StrHeader(len), 0xda, U16(len)); }
    else { AtHeader(b, p, StrHeader(len), 0xdb, U32(len)); }
    ReadSizedTag(cfg, b, p, depth);
  }

  lemma ReadStrBytes(cfg: Config, b: Bytes, p: nat, s: Bytes, depth: nat)
    requires At(b, p, StrBytes(s)) && depth <= MAX_DEPTH && |s| < TWO_32
    ensures StrKeyTag(b[p]) && !IntKeyTag(b[p])
    ensures ReadNode(cfg, b, p, depth) == Got(VStr(s), p + |StrBytes(s)|, 0)
  {
    hide ReadNode, StrHeader, StrKeyTag, IntKeyTag;
    AtConcat(b, p, StrHeader(|s|), s);
    ReadStrHeader(cfg, b, p, |s|, depth);
  }

  lemma ReadBinHeader(cfg: Config, b: Bytes, p: nat, len: nat, depth: nat)
    requires At(b, p, BinHeader(len)) && depth <= MAX_DEPTH && len < TWO_32
    ensures ReadNode(cfg, b, p, depth) == ReadBin(b, p + |BinHeader(len)|, len)
  {
    hide At, ReadNode, ReadBin, Get16, Get32, U8, U16, U32;
    SizeUndoes(b, p + 1, len);
    if len <= 0xff { AtHeader(b, p, BinHeader(len), 0xc4, U8(len)); }
    else if len <= 0xffff { AtHeader(b, p, BinHeader(len), 0xc5, U16(len)); }
    else { AtHeader(b, p, BinHeader(len), 0xc6, U32(len)); }
    ReadFixedTag(cfg, b, p, depth);
  }

  lemma ReadBinBytes(cfg: Config, b: Bytes, p: nat, s: Bytes, depth: nat)
    requires At(b, p, BinHeader(|s|) + s) && depth <= MAX_DEPTH && |s| < TWO_32
    ensures ReadNode(cfg, b, p, depth) == Got(VBinary(s), p + |BinHeader(|s|) + s|, 0)
  {
    hide ReadNode, BinHeader;
    AtConcat(b, p, BinHeader(|s|), s);
    ReadBinHeader(cfg, b, p, |s|, depth);
  }

  // ---- Container headers ----

  lemma ReadArrayHeader(cfg: Config, b: Bytes, p: nat, count: nat, depth: nat)
    requires At(b, p, ArrayHeader(count)) && depth <= MAX_DEPTH && count < TWO_32
    ensures ReadNode(cfg, b, p, depth) == ReadArray(cfg, b, p + |ArrayHeader(count)|, count, depth)
  {
    hide At, ReadNode, ReadStr, ReadArray, ReadMap, Get16, Get32, U16, U32;
    SizeUndoes(b, p + 1, count);
    if count <= 15 {
      AtHeader(b, p, ArrayHeader(count), 0x90 + count, []);
      ReadSmallTag(cfg, b, p, depth);
      return;
    }
    if count <= 0xffff { AtHeader(b, p, ArrayHeader(count), 0xdc, U16(count)); }
    else { AtHeader(b, p, ArrayHeader(count), 0xdd, U32(count)); }
    ReadSizedTag(cfg, b, p, depth);
  }

  lemma ReadMapHeader(cfg: Config, b: Bytes, p: nat, count: nat, depth: nat)
    requires At(b, p, MapHeader(count)) && depth <= MAX_DEPTH && count < TWO_32
    ensures ReadNode(cfg, b, p, depth) == ReadMap(cfg, b, p + |MapHeader(count)|, count, depth)
  {
    hide At, ReadNode, ReadStr, ReadArray, ReadMap, Get16, Get32, U16, U32;
    SizeUndoes(b, p + 1, count);
    if count <= 15 {
      AtHeader(b, p, MapHeader(count), 0x80 + count, []);
      ReadSmallTag(cfg, b, p, depth);
      return;
    }
    if count <= 0xffff { AtHeader(b, p, MapHeader(count), 0xde, U16(count)); }
    else { AtHeader(b, p, MapHeader(count), 0xdf, U32(count)); }
    ReadSizedTag(cfg, b, p, depth);
  }

  /** What follows a map header is read by the loop its first key asks for. */
  lemma ReadMapBody(cfg: Config, b: Bytes, p: nat, count: nat, depth: nat)
    requires p <= |b| && count <= cfg.maxElements
    ensures count == 0 ==> ReadMap(cfg, b, p, count, depth) == Got(VObject(map[]), p, 0)
    ensures count > 0 && p < |b| && IntKeyTag(b[p]) ==>
            ReadMap(cfg, b, p, count, depth) == ReadPairs(cfg, b, p, count, depth, map[], 0)
    ensures count > 0 && p < |b| && !IntKeyTag(b[p]) && StrKeyTag(b[p]) ==>
            ReadMap(cfg, b, p, count, depth) == ReadFields(cfg, b, p, count, depth, map[], 0)
  {
    hide ReadPairs, ReadFields, IntKeyTag, StrKeyTag;
  }

  lemma ReadArrayBody(cfg: Config, b: Bytes, p: nat, count: nat, depth: nat)
    requires p <= |b| && count <= cfg.maxElements
    ensures ReadArray(cfg, b, p, count, depth) == ReadElems(cfg, b, p, count, depth, [], 0)
  {
    hide ReadElems;
  }

  // ---- Trees ----

  lemma ReadFloatBytes(cfg: Config, b: Bytes, p: nat, d: Double, depth: nat)
    requires At(b, p, [0xcb] + U64(d)) && depth <= MAX_DEPTH
    ensures ReadNode(cfg, b, p, depth) == Got(VFloat(d), p + 9, 0)
  {
    hide ReadNode, Get64, U64;
    AtTag(b, p, 0xcb, U64(d));
    Get64Undoes(b, p + 1, d);
    ReadFixedTag(cfg, b, p, depth);
  }

  lemma ReadConstant(cfg: Config, b: Bytes, p: nat, t: Byte, depth: nat)
    requires At(b, p, [t]) && t in {0xc0, 0xc2, 0xc3} && depth <= MAX_DEPTH
    ensures ReadNode(cfg, b, p, depth) == Got(if t == 0xc0 then VNull else VBool(t == 0xc3), p + 1, 0)
  {
    hide At, ReadNode;
    AtHeader(b, p, [t], t, []);
    ReadFixedTag(cfg, b, p, depth);
  }

  /** Framing: from the position of a tree's bytes the reader returns that tree and the position
      after them, wherever they stand and whatever comes next. */
  lemma {:induction false} ReadUndoesSerialize(cfg: Config, b: Bytes, p: nat, n: Node, depth: nat)
    requires Fits(cfg, n, depth)
    requires At(b, p, Serialize(n))
    ensures ReadNode(cfg, b, p, depth) == Got(Wire(n), p + |Serialize(n)|, 0)
    decreases n, 0
  {
    hide At, ReadNode, ReadArray, ReadMap, ReadElems, ReadFields, ReadPairs, IntBytes, StrBytes,
         ArrayHeader, MapHeader, BinHeader, ElemBytes, FieldBytes, PairBytes, U64, IntKeyTag, StrKeyTag;
    match n
    case Null => ReadConstant(cfg, b, p, 0xc0, depth);
    case Bool(v) => ReadConstant(cfg, b, p, if v then 0xc3 else 0xc2, depth);
    case Int(i) => ReadIntBytes(cfg, b, p, i, depth);
    case Float(d) => ReadFloatBytes(cfg, b, p, d, depth);
    case Str(s) => ReadStrBytes(cfg, b, p, s, depth);
    case Binary(s) => ReadBinBytes(cfg, b, p, s, depth);
    case Array(xs) =>
      var q := p + |ArrayHeader(|xs|)|;
      AtConcat(b, p, ArrayHeader(|xs|), ElemBytes(xs, 0));
      ReadArrayHeader(cfg, b, p, |xs|, depth);
      ReadArrayBody(cfg, b, q, |xs|, depth);
      ReadElemBytes(cfg, b, q, xs, 0, depth);
    case Object(fs) =>
      var q := p + |MapHeader(|fs|)|;
      AtConcat(b, p, MapHeader(|fs|), FieldBytes(fs, 0));
      ReadMapHeader(cfg, b, p, |fs|, depth);
      ReadMapBody(cfg, b, q, |fs|, depth);
      ReadFieldBytes(cfg, b, q, fs, 0, depth);
    case IntMap(ps) =>
      var q := p + |MapHeader(|ps|)|;
      AtConcat(b, p, MapHeader(|ps|), PairBytes(ps, 0));
      ReadMapHeader(cfg, b, p, |ps|, depth);
      ReadMapBody(cfg, b, q, |ps|, depth);
      ReadPairBytes(cfg, b, q, ps, 0, depth);
  }

  /** One turn of each of the three loops. */
  lemma ReadElemsStep(cfg: Config, b: Bytes, p: nat, count: nat, depth: nat, acc: seq<Value>, v: Value, next: nat)
    requires p <= |b| && count > 0
    requires ReadNode(cfg, b, p, depth + 1) == Got(v, next, 0)
    ensures ReadElems(cfg, b, p, count, depth, acc, 0) == ReadElems(cfg, b, next, count - 1, depth, acc + [v], 0)
  {
    hide ReadNode;
  }

  lemma ReadFieldsStep(cfg: Config, b: Bytes, p: nat, count: nat, depth: nat, acc: map<Bytes, Value>, key: Bytes, q: nat, v: Value, next: nat)
    requires p <= |b| && count > 0
    requires ReadNode(cfg, b, p, depth + 1) == Got(VStr(key), q, 0)
    requires ReadNode(cfg, b, q, depth + 1) == Got(v, next, 0)
    ensures ReadFields(cfg, b, p, count, depth, acc, 0) == ReadFields(cfg, b, next, count - 1, depth, acc[key := v], 0)
  {
    hide ReadNode;
  }

  lemma ReadPairsStep(cfg: Config, b: Bytes, p: nat, count: nat, depth: nat, acc: map<Int64, Value>, key: Int64, q: nat, v: Value, next: nat)
    requires p <= |b| && count > 0
    requires ReadNode(cfg, b, p, depth + 1) == Got(VInt(key), q, 0)
    requires ReadNode(cfg, b, q, depth + 1) == Got(v, next, 0)
    ensures ReadPairs(cfg, b, p, count, depth, acc, 0) == ReadPairs(cfg, b, next, count - 1, depth, acc[key := v], 0)
  {
    hide ReadNode;
  }

  lemma ReadElemsDone(cfg: Config, b: Bytes, p: nat, depth: nat, acc: seq<Value>)
    requires p <= |b|
    ensures ReadElems(cfg, b, p, 0, depth, acc, 0) == Got(VArray(acc), p, 0)
  {
    hide ReadNode;
  }

  lemma ReadFieldsDone(cfg: Config, b: Bytes, p: nat, depth: nat, acc: map<Bytes, Value>)
    requires p <= |b|
    ensures ReadFields(cfg, b, p, 0, depth, acc, 0) == Got(VObject(acc), p, 0)
  {
    hide ReadNode;
  }

  lemma ReadPairsDone(cfg: Config, b: Bytes, p: nat, depth: nat, acc: map<Int64, Value>)
    requires p <= |b|
    ensures ReadPairs(cfg, b, p, 0, depth, acc, 0) == Got(VIntMap(acc), p, 0)
  {
    hide ReadNode;
  }

  lemma {:induction false} ReadElemBytes(cfg: Config, b: Bytes, p: nat, xs: seq<Node>, k: nat, depth: nat)
    requires k <= |xs|
    requires forall i :: 0 <= i < |xs| ==> Fits(cfg, xs[i], depth + 1)
    requires At(b, p, ElemBytes(xs, k))
    ensures ReadElems(cfg, b, p, |xs| - k, depth, WireElems(xs, k), 0)
         == Got(VArray(WireElems(xs, |xs|)), p + |ElemBytes(xs, k)|, 0)
    decreases xs, |xs| - k
  {
    hide At, Fits, ReadNode, ReadElems, Serialize, Wire;
    if k == |xs| {
      ReadElemsDone(cfg, b, p, depth, WireElems(xs, k));
      return;
    }
    AtConcat(b, p, Serialize(xs[k]), ElemBytes(xs, k + 1));
    ReadUndoesSerialize(cfg, b, p, xs[k], depth + 1);
    ReadElemsStep(cfg, b, p, |xs| - k, depth, WireElems(xs, k), Wire(xs[k]), p + |Serialize(xs[k])|);
    ReadElemBytes(cfg, b, p + |Serialize(xs[k])|, xs, k + 1, depth);
  }

  lemma {:induction false} ReadFieldBytes(cfg: Config, b: Bytes, p: nat, fs: seq<Field>, k: nat, depth: nat)
    requires k <= |fs|
    requires forall i :: 0 <= i < |fs| ==> |fs[i].key| < TWO_32 && Fits(cfg, fs[i].val, depth + 1)
    requires At(b, p, FieldBytes(fs, k))
    ensures k == |fs| ==> FieldBytes(fs, k) == []
    ensures k < |fs| ==> p < |b| && StrKeyTag(b[p]) && !IntKeyTag(b[p])
    ensures ReadFields(cfg, b, p, |fs| - k, depth, WireFields(fs, k), 0)
         == Got(VObject(WireFields(fs, |fs|)), p + |FieldBytes(fs, k)|, 0)
    decreases fs, |fs| - k
  {
    hide At, ReadNode, ReadFields, Serialize, StrBytes, Wire, StrKeyTag, IntKeyTag;
    if k == |fs| {
      ReadFieldsDone(cfg, b, p, depth, WireFields(fs, k));
      return;
    }
    var key, val, rest := StrBytes(fs[k].key), Serialize(fs[k].val), FieldBytes(fs, k + 1);
    AtConcat(b, p, key + val, rest);
    AtConcat(b, p, key, val);
    ReadStrBytes(cfg, b, p, fs[k].key, depth + 1);
    ReadUndoesSerialize(cfg, b, p + |key|, fs[k].val, depth + 1);
    ReadFieldBytes(cfg, b, p + |key + val|, fs, k + 1, depth);
    ReadFieldsStep(cfg, b, p, |fs| - k, depth, WireFields(fs, k), fs[k].key, p + |key|, Wire(fs[k].val), p + |key + val|);
  }

  lemma {:induction false} ReadPairBytes(cfg: Config, b: Bytes, p: nat, ps: seq<Pair>, k: nat, depth: nat)
    requires k <= |ps|
    requires forall i :: 0 <= i < |ps| ==> Fits(cfg, ps[i].ival, depth + 1)
    requires At(b, p, PairBytes(ps, k))
    ensures k == |ps| ==> PairBytes(ps, k) == []
    ensures k < |ps| ==> p < |b| && IntKeyTag(b[p])
    ensures ReadPairs(cfg, b, p, |ps| - k, depth, WirePairs(ps, k), 0)
         == Got(VIntMap(WirePairs(ps, |ps|)), p + |PairBytes(ps, k)|, 0)
    decreases ps, |ps| - k
  {
    hide At, ReadNode, ReadPairs, Serialize, IntBytes, Wire, IntKeyTag;
    if k == |ps| {
      ReadPairsDone(cfg, b, p, depth, WirePairs(ps, k));
      return;
    }
    assert ps decreases to ps[k];
    var key, val, rest := IntBytes(ps[k].ikey), Serialize(ps[k].ival), PairBytes(ps, k + 1);
    AtConcat(b, p, key + val, rest);
    AtConcat(b, p, key, val);
    ReadIntBytes(cfg, b, p, ps[k].ikey, depth + 1);
    ReadUndoesSerialize(cfg, b, p + |key|, ps[k].ival, depth + 1);
    ReadPairBytes(cfg, b, p + |key + val|, ps, k + 1, depth);
    ReadPairsStep(cfg, b, p, |ps| - k, depth, WirePairs(ps, k), ps[k].ikey, p + |key|, Wire(ps[k].ival), p + |key + val|);
  }

  /** Parsing a whole serialized tree. */
  lemma ParseUndoesSerialize(cfg: Config, n: Node)
    requires Fits(cfg, n, 0)
    ensures Parse(cfg, Serialize(n)) == Some(Wire(n))
  {
    var b := Serialize(n);
    assert b[0..|b|] == b;
    ReadUndoesSerialize(cfg, b, 0, n, 0);
  }
}
