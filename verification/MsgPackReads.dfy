/** The reader accepts every MessagePack item of every format within its limits, wherever it stands, and
    reads what it means. */
module MsgPackReads {
  import opened ByteStrings
  import opened DataNodes
  import opened MsgPackCodec
  import opened MsgPackRoundTrip
  import opened MsgPackFormats

  // ---- Numbers ----

  lemma Number1(b: Bytes, p: nat, t: Byte, v: int)
    requires At(b, p, [t] + BigEndian(v, 1))
    ensures p + 2 <= |b| && b[p] == t && b[p + 1] == v % 256
  {
    BigEndian1(v);
    hide At, U8, BigEndian;
    AtTag(b, p, t, U8(v));
    ByteUndoes(b, p + 1, v);
  }

  lemma Number2(b: Bytes, p: nat, t: Byte, v: int)
    requires At(b, p, [t] + BigEndian(v, 2))
    ensures p + 3 <= |b| && b[p] == t && Get16(b, p + 1) == v % TWO_16
  {
    hide At, U16, BigEndian, Get16;
    BigEndian2(v);
    AtTag(b, p, t, U16(v));
    Get16Undoes(b, p + 1, v);
  }

  lemma Number4(b: Bytes, p: nat, t: Byte, v: int)
    requires At(b, p, [t] + BigEndian(v, 4))
    ensures p + 5 <= |b| && b[p] == t && Get32(b, p + 1) == v % TWO_32
  {
    hide At, U32, BigEndian, Get32;
    BigEndian4(v);
    AtTag(b, p, t, U32(v));
    Get32Undoes(b, p + 1, v);
  }

  lemma Number8(b: Bytes, p: nat, t: Byte, v: int)
    requires At(b, p, [t] + BigEndian(v, 8))
    ensures p + 9 <= |b| && b[p] == t && Get64(b, p + 1) == v % TWO_64
  {
    hide At, U64, BigEndian, Get64;
    BigEndian8(v);
    AtTag(b, p, t, U64(v));
    Get64Undoes(b, p + 1, v);
  }

  lemma ReadsFixInt(cfg: Config, b: Bytes, p: nat, v: int, depth: nat)
    requires -32 <= v < 128 && At(b, p, BigEndian(v, 1)) && depth <= MAX_DEPTH
    ensures IntKeyTag(b[p]) && ReadNode(cfg, b, p, depth) == Got(VInt(v), p + 1, 0)
  {
    BigEndian1(v);
    ByteUndoes(b, p, v);
    hide At, BigEndian, ReadNode;
    ReadSmallInt(cfg, b, p, depth);
  }

  lemma ReadsUInt(cfg: Config, b: Bytes, p: nat, i: Item, depth: nat)
    requires i.UInt? && Sound(i) && At(b, p, Encoded(i)) && depth <= MAX_DEPTH
    ensures IntKeyTag(b[p]) && ReadNode(cfg, b, p, depth) == Got(VInt(IntOf(i)), p + 1 + i.width, 0)
  {
    hide At, ReadNode, BigEndian, Get16, Get32, Get64;
    if i.width == 1 { Number1(b, p, 0xcc, i.u); }
    else if i.width == 2 { Number2(b, p, 0xcd, i.u); }
    else if i.width == 4 { Number4(b, p, 0xce, i.u); }
    else { Number8(b, p, 0xcf, i.u); }
    ReadFixedTag(cfg, b, p, depth);
  }

  lemma ReadsSInt1(cfg: Config, b: Bytes, p: nat, v: int, depth: nat)
    requires -0x80 <= v < 0x80 && At(b, p, [0xd0] + BigEndian(v, 1)) && depth <= MAX_DEPTH
    ensures IntKeyTag(b[p]) && ReadNode(cfg, b, p, depth) == Got(VInt(v), p + 2, 0)
  {
    hide At, ReadNode, BigEndian, Get16, Get32, Get64;
    Number1(b, p, 0xd0, v);
    ReadFixedTag(cfg, b, p, depth);
  }

  lemma ReadsSInt2(cfg: Config, b: Bytes, p: nat, v: int, depth: nat)
    requires -0x8000 <= v < 0x8000 && At(b, p, [0xd1] + BigEndian(v, 2)) && depth <= MAX_DEPTH
    ensures IntKeyTag(b[p]) && ReadNode(cfg, b, p, depth) == Got(VInt(v), p + 3, 0)
  {
    hide At, ReadNode, BigEndian, Get16, Get32, Get64;
    Number2(b, p, 0xd1, v);
    ReadFixedTag(cfg, b, p, depth);
  }

  lemma ReadsSInt4(cfg: Config, b: Bytes, p: nat, v: int, depth: nat)
    requires -0x8000_0000 <= v < 0x8000_0000 && At(b, p, [0xd2] + BigEndian(v, 4)) && depth <= MAX_DEPTH
    ensures IntKeyTag(b[p]) && ReadNode(cfg, b, p, depth) == Got(VInt(v), p + 5, 0)
  {
    hide At, ReadNode, BigEndian, Get16, Get32, Get64;
    Number4(b, p, 0xd2, v);
    ReadFixedTag(cfg, b, p, depth);
  }

  lemma ReadsSInt8(cfg: Config, b: Bytes, p: nat, v: int, depth: nat)
    requires -0x8000_0000_0000_0000 <= v < 0x8000_0000_0000_0000 && At(b, p, [0xd3] + BigEndian(v, 8)) && depth <= MAX_DEPTH
    ensures IntKeyTag(b[p]) && ReadNode(cfg, b, p, depth) == Got(VInt(v), p + 9, 0)
  {
    hide At, ReadNode, BigEndian, Get16, Get32, Get64;
    Number8(b, p, 0xd3, v);
    ReadFixedTag(cfg, b, p, depth);
  }

  lemma ReadsSInt(cfg: Config, b: Bytes, p: nat, i: Item, depth: nat)
    requires i.SInt? && Sound(i) && At(b, p, Encoded(i)) && depth <= MAX_DEPTH
    ensures IntKeyTag(b[p]) && ReadNode(cfg, b, p, depth) == Got(VInt(IntOf(i)), p + 1 + i.width, 0)
  {
    hide At, ReadNode, BigEndian, IntKeyTag;
    SignedIs(i.v);
    if i.width == 1 { ReadsSInt1(cfg, b, p, i.v, depth); }
    else if i.width == 2 { ReadsSInt2(cfg, b, p, i.v, depth); }
    else if i.width == 4 { ReadsSInt4(cfg, b, p, i.v, depth); }
    else { ReadsSInt8(cfg, b, p, i.v, depth); }
  }

  lemma SignedIs(v: int)
    ensures -0x8000_0000_0000_0000 <= v < 0x8000_0000_0000_0000 ==> Int64Of(v) == v
  {
  }

  /** Every integer format, holding any number that fits it. */
  lemma ReadsInt(cfg: Config, b: Bytes, p: nat, i: Item, depth: nat)
    requires IntItem(i) && Sound(i) && At(b, p, Encoded(i)) && depth <= MAX_DEPTH
    ensures IntKeyTag(b[p]) && ReadNode(cfg, b, p, depth) == Got(VInt(IntOf(i)), p + |Encoded(i)|, 0)
  {
    hide At, ReadNode, BigEndian, IntKeyTag;
    match i
    case FixInt(v) => ReadsFixInt(cfg, b, p, v, depth);
    case UInt(_, _) => ReadsUInt(cfg, b, p, i, depth);
    case SInt(_, _) => ReadsSInt(cfg, b, p, i, depth);
  }

  /** Float32 is widened, float64 is kept. */
  lemma ReadsFloat(cfg: Config, b: Bytes, p: nat, i: Item, depth: nat)
    requires (i.Float32? || i.Float64?) && At(b, p, Encoded(i)) && depth <= MAX_DEPTH
    ensures ReadNode(cfg, b, p, depth) == Got(Means(cfg, i), p + |Encoded(i)|, if i.Float32? then 1 else 0)
  {
    hide At, ReadNode, BigEndian, Get16, Get32, Get64;
    if i.Float32? { Number4(b, p, 0xca, i.f); } else { Number8(b, p, 0xcb, i.d); }
    ReadFixedTag(cfg, b, p, depth);
  }

  // ---- Heads ----

  lemma ReadsHead(b: Bytes, p: nat, form: Form, fix: nat, t8: Byte, t16: Byte, t32: Byte, n: nat)
    requires FitsForm(form, n, 31) && fix <= 0xa0 && At(b, p, Head(form, fix, t8, t16, t32, n))
    ensures p < |b|
    ensures match form
            case InTag => b[p] == fix + n && |Head(form, fix, t8, t16, t32, n)| == 1
            case In8 => p + 2 <= |b| && b[p] == t8 && b[p + 1] == n && |Head(form, fix, t8, t16, t32, n)| == 2
            case In16 => p + 3 <= |b| && b[p] == t16 && Get16(b, p + 1) == n && |Head(form, fix, t8, t16, t32, n)| == 3
            case In32 => p + 5 <= |b| && b[p] == t32 && Get32(b, p + 1) == n && |Head(form, fix, t8, t16, t32, n)| == 5
  {
    match form
    case InTag => assert b[p..p + 1][0] == b[p];
    case In8 => Number1(b, p, t8, n);
    case In16 => Number2(b, p, t16, n);
    case In32 => Number4(b, p, t32, n);
  }

  lemma ReadsStr(cfg: Config, b: Bytes, p: nat, i: Item, depth: nat)
    requires i.StrItem? && Sound(i) && At(b, p, Encoded(i)) && depth <= MAX_DEPTH
    ensures p < |b| && StrKeyTag(b[p]) && !IntKeyTag(b[p])
    ensures ReadNode(cfg, b, p, depth) == Got(VStr(i.s), p + |Encoded(i)|, 0)
  {
    hide ReadNode, BigEndian, Get16, Get32, ReadArray, ReadMap, Head;
    var head := Head(i.form, 0xa0, 0xd9, 0xda, 0xdb, |i.s|);
    AtConcat(b, p, head, i.s);
    ReadsHead(b, p, i.form, 0xa0, 0xd9, 0xda, 0xdb, |i.s|);
    if i.form == InTag { ReadSmallTag(cfg, b, p, depth); } else { ReadSizedTag(cfg, b, p, depth); }
  }

  lemma ReadsBin(cfg: Config, b: Bytes, p: nat, i: Item, depth: nat)
    requires i.BinItem? && Sound(i) && At(b, p, Encoded(i)) && depth <= MAX_DEPTH
    ensures ReadNode(cfg, b, p, depth) == Got(VBinary(i.bin), p + |Encoded(i)|, 0)
  {
    hide ReadNode, BigEndian, Get16, Get32, Head;
    var head := Head(i.form, 0, 0xc4, 0xc5, 0xc6, |i.bin|);
    AtConcat(b, p, head, i.bin);
    ReadsHead(b, p, i.form, 0, 0xc4, 0xc5, 0xc6, |i.bin|);
    ReadFixedTag(cfg, b, p, depth);
  }

  lemma ReadsArrayHead(cfg: Config, b: Bytes, p: nat, form: Form, n: nat, depth: nat)
    requires form != In8 && FitsForm(form, n, 15) && At(b, p, Head(form, 0x90, 0, 0xdc, 0xdd, n)) && depth <= MAX_DEPTH
    ensures p + |Head(form, 0x90, 0, 0xdc, 0xdd, n)| <= |b|
    ensures ReadNode(cfg, b, p, depth) == ReadArray(cfg, b, p + |Head(form, 0x90, 0, 0xdc, 0xdd, n)|, n, depth)
  {
    hide At, ReadNode, BigEndian, Get16, Get32, ReadArray, ReadMap, ReadStr, Head;
    ReadsHead(b, p, form, 0x90, 0, 0xdc, 0xdd, n);
    if form == InTag { ReadSmallTag(cfg, b, p, depth); } else { ReadSizedTag(cfg, b, p, depth); }
  }

  lemma ReadsMapHead(cfg: Config, b: Bytes, p: nat, form: Form, n: nat, depth: nat)
    requires form != In8 && FitsForm(form, n, 15) && At(b, p, Head(form, 0x80, 0, 0xde, 0xdf, n)) && depth <= MAX_DEPTH
    ensures p + |Head(form, 0x80, 0, 0xde, 0xdf, n)| <= |b|
    ensures ReadNode(cfg, b, p, depth) == ReadMap(cfg, b, p + |Head(form, 0x80, 0, 0xde, 0xdf, n)|, n, depth)
  {
    hide At, ReadNode, BigEndian, Get16, Get32, ReadArray, ReadMap, ReadStr, Head;
    ReadsHead(b, p, form, 0x80, 0, 0xde, 0xdf, n);
    if form == InTag { ReadSmallTag(cfg, b, p, depth); } else { ReadSizedTag(cfg, b, p, depth); }
  }

  // ---- One turn of each loop ----

  lemma ElemsTurn(cfg: Config, b: Bytes, p: nat, count: nat, depth: nat, acc: seq<Value>, narrow: nat, e: Read)
    requires p <= |b| && count > 0 && e == ReadNode(cfg, b, p, depth + 1) && e.Got?
    ensures ReadElems(cfg, b, p, count, depth, acc, narrow) == ReadElems(cfg, b, e.next, count - 1, depth, acc + [e.value], narrow + e.narrow)
  {
    hide ReadNode;
  }

  lemma PairsTurn(cfg: Config, b: Bytes, p: nat, count: nat, depth: nat, acc: map<Int64, Value>, narrow: nat, k: Read, v: Read)
    requires p <= |b| && count > 0 && k == ReadNode(cfg, b, p, depth + 1) && k.Got? && k.value.VInt?
    requires v == ReadNode(cfg, b, k.next, depth + 1) && v.Got?
    ensures ReadPairs(cfg, b, p, count, depth, acc, narrow) == ReadPairs(cfg, b, v.next, count - 1, depth, acc[k.value.i := v.value], narrow + v.narrow)
  {
    hide ReadNode;
  }

  lemma FieldsTurn(cfg: Config, b: Bytes, p: nat, count: nat, depth: nat, acc: map<Bytes, Value>, narrow: nat, k: Read, v: Read)
    requires p <= |b| && count > 0 && k == ReadNode(cfg, b, p, depth + 1) && k.Got? && k.value.VStr?
    requires v == ReadNode(cfg, b, k.next, depth + 1) && v.Got?
    ensures ReadFields(cfg, b, p, count, depth, acc, narrow) == ReadFields(cfg, b, v.next, count - 1, depth, acc[k.value.s := v.value], narrow + v.narrow)
  {
    hide ReadNode;
  }

  lemma LoopsEnd(cfg: Config, b: Bytes, p: nat, depth: nat, acc: seq<Value>, ints: map<Int64, Value>, names: map<Bytes, Value>, narrow: nat)
    requires p <= |b|
    ensures ReadElems(cfg, b, p, 0, depth, acc, narrow) == Got(VArray(acc), p, narrow)
    ensures ReadPairs(cfg, b, p, 0, depth, ints, narrow) == Got(VIntMap(ints), p, narrow)
    ensures ReadFields(cfg, b, p, 0, depth, names, narrow) == Got(VObject(names), p, narrow)
  {
    hide ReadNode;
  }

  // ---- Items ----

  /** Every item within the limits is read as what it means, in exactly its bytes, whatever stands
      around it: every format, padded sizes and repeated keys included. */
  lemma {:induction false} ReadsItem(cfg: Config, b: Bytes, p: nat, i: Item, depth: nat)
    requires Sound(i) && Within(cfg, i, depth) && At(b, p, Encoded(i))
    ensures ReadNode(cfg, b, p, depth) == Got(Means(cfg, i), p + |Encoded(i)|, Narrow(i))
    decreases i, 0
  {
    hide At, ReadNode, ReadArray, ReadMap, ReadElems, ReadFields, ReadPairs, BigEndian, Head, IntKeyTag, StrKeyTag,
         EncodedElems, EncodedEntries;
    match i
    case Nil => ReadConstant(cfg, b, p, 0xc0, depth);
    case Truth(v) => ReadConstant(cfg, b, p, if v then 0xc3 else 0xc2, depth);
    case FixInt(_) => ReadsInt(cfg, b, p, i, depth);
    case UInt(_, _) => ReadsInt(cfg, b, p, i, depth);
    case SInt(_, _) => ReadsInt(cfg, b, p, i, depth);
    case Float32(_) => ReadsFloat(cfg, b, p, i, depth);
    case Float64(_) => ReadsFloat(cfg, b, p, i, depth);
    case StrItem(_, _) => ReadsStr(cfg, b, p, i, depth);
    case BinItem(_, _) => ReadsBin(cfg, b, p, i, depth);
    case ArrayItem(form, xs) =>
      var head := Head(form, 0x90, 0, 0xdc, 0xdd, |xs|);
      AtConcat(b, p, head, EncodedElems(xs, 0));
      ReadsArrayHead(cfg, b, p, form, |xs|, depth);
      ReadArrayBody(cfg, b, p + |head|, |xs|, depth);
      ReadsElems(cfg, b, p + |head|, xs, 0, depth);
    case MapItem(form, es) =>
      var head := Head(form, 0x80, 0, 0xde, 0xdf, |es|);
      AtConcat(b, p, head, EncodedEntries(es, 0));
      ReadsMapHead(cfg, b, p, form, |es|, depth);
      ReadsEntries(cfg, b, p + |head|, es, depth);
  }

  lemma {:induction false} ReadsElems(cfg: Config, b: Bytes, p: nat, xs: seq<Item>, k: nat, depth: nat)
    requires k <= |xs| && forall j :: 0 <= j < |xs| ==> Sound(xs[j]) && Within(cfg, xs[j], depth + 1)
    requires At(b, p, EncodedElems(xs, k))
    ensures ReadElems(cfg, b, p, |xs| - k, depth, ElemMeanings(cfg, xs, k), NarrowElems(xs, k))
         == Got(VArray(ElemMeanings(cfg, xs, |xs|)), p + |EncodedElems(xs, k)|, NarrowElems(xs, |xs|))
    decreases xs, |xs| - k
  {
    hide At, ReadNode, ReadElems, Encoded, Means, Narrow, Sound, Within;
    if k == |xs| {
      LoopsEnd(cfg, b, p, depth, ElemMeanings(cfg, xs, k), map[], map[], NarrowElems(xs, k));
    } else {
      var bytes := Encoded(xs[k]);
      AtConcat(b, p, bytes, EncodedElems(xs, k + 1));
      ReadsItem(cfg, b, p, xs[k], depth + 1);
      ElemsTurn(cfg, b, p, |xs| - k, depth, ElemMeanings(cfg, xs, k), NarrowElems(xs, k), ReadNode(cfg, b, p, depth + 1));
      ReadsElems(cfg, b, p + |bytes|, xs, k + 1, depth);
    }
  }

  lemma {:induction false} ReadsEntries(cfg: Config, b: Bytes, p: nat, es: seq<Entry>, depth: nat)
    requires |es| <= cfg.maxElements && (forall j :: 0 <= j < |es| ==> Sound(es[j].key) && Sound(es[j].val))
    requires forall j :: 0 <= j < |es| ==> Within(cfg, es[j].key, depth + 1) && Within(cfg, es[j].val, depth + 1)
    requires (forall j :: 0 <= j < |es| ==> IntItem(es[j].key)) || (forall j :: 0 <= j < |es| ==> es[j].key.StrItem?)
    requires At(b, p, EncodedEntries(es, 0))
    ensures ReadMap(cfg, b, p, |es|, depth)
         == Got(if es != [] && IntItem(es[0].key) then VIntMap(IntMeanings(cfg, es, |es|)) else VObject(NameMeanings(cfg, es, |es|)),
                p + |EncodedEntries(es, 0)|, NarrowEntries(es, |es|))
    decreases es, |es| + 1
  {
    hide At, ReadNode, ReadMap, ReadPairs, ReadFields, Encoded, Means, Narrow, Sound, Within, IntKeyTag, StrKeyTag;
    ReadMapBody(cfg, b, p, |es|, depth);
    if es != [] {
      if IntItem(es[0].key) {
        ReadsPairs(cfg, b, p, es, 0, depth);
      } else {
        ReadsNames(cfg, b, p, es, 0, depth);
      }
    }
  }

  lemma {:induction false} ReadsPairs(cfg: Config, b: Bytes, p: nat, es: seq<Entry>, k: nat, depth: nat)
    requires k <= |es| && (forall j :: 0 <= j < |es| ==> Sound(es[j].key) && Sound(es[j].val))
    requires forall j :: 0 <= j < |es| ==> Within(cfg, es[j].key, depth + 1) && Within(cfg, es[j].val, depth + 1)
    requires (forall j :: 0 <= j < |es| ==> IntItem(es[j].key)) && At(b, p, EncodedEntries(es, k))
    ensures k < |es| ==> p < |b| && IntKeyTag(b[p])
    ensures ReadPairs(cfg, b, p, |es| - k, depth, IntMeanings(cfg, es, k), NarrowEntries(es, k))
         == Got(VIntMap(IntMeanings(cfg, es, |es|)), p + |EncodedEntries(es, k)|, NarrowEntries(es, |es|))
    decreases es, |es| - k
  {
    hide At, ReadNode, ReadPairs, Encoded, Means, Narrow, Sound, IntKeyTag, IntOf;
    if k == |es| {
      LoopsEnd(cfg, b, p, depth, [], IntMeanings(cfg, es, k), map[], NarrowEntries(es, k));
    } else {
      assert es decreases to es[k];
      var key, val := Encoded(es[k].key), Encoded(es[k].val);
      AtConcat(b, p, key + val, EncodedEntries(es, k + 1));
      AtConcat(b, p, key, val);
      ReadsInt(cfg, b, p, es[k].key, depth + 1);
      ReadsItem(cfg, b, p + |key|, es[k].val, depth + 1);
      PairsTurn(cfg, b, p, |es| - k, depth, IntMeanings(cfg, es, k), NarrowEntries(es, k), ReadNode(cfg, b, p, depth + 1),
                ReadNode(cfg, b, p + |key|, depth + 1));
      ReadsPairs(cfg, b, p + |key + val|, es, k + 1, depth);
    }
  }

  lemma {:induction false} ReadsNames(cfg: Config, b: Bytes, p: nat, es: seq<Entry>, k: nat, depth: nat)
    requires k <= |es| && (forall j :: 0 <= j < |es| ==> Sound(es[j].key) && Sound(es[j].val))
    requires forall j :: 0 <= j < |es| ==> Within(cfg, es[j].key, depth + 1) && Within(cfg, es[j].val, depth + 1)
    requires (forall j :: 0 <= j < |es| ==> es[j].key.StrItem?) && At(b, p, EncodedEntries(es, k))
    ensures k < |es| ==> p < |b| && StrKeyTag(b[p]) && !IntKeyTag(b[p])
    ensures ReadFields(cfg, b, p, |es| - k, depth, NameMeanings(cfg, es, k), NarrowEntries(es, k))
         == Got(VObject(NameMeanings(cfg, es, |es|)), p + |EncodedEntries(es, k)|, NarrowEntries(es, |es|))
    decreases es, |es| - k
  {
    hide At, ReadNode, ReadFields, Encoded, Means, Narrow, Sound, IntKeyTag, StrKeyTag;
    if k == |es| {
      LoopsEnd(cfg, b, p, depth, [], map[], NameMeanings(cfg, es, k), NarrowEntries(es, k));
    } else {
      assert es decreases to es[k];
      var key, val := Encoded(es[k].key), Encoded(es[k].val);
      AtConcat(b, p, key + val, EncodedEntries(es, k + 1));
      AtConcat(b, p, key, val);
      ReadsStr(cfg, b, p, es[k].key, depth + 1);
      ReadsItem(cfg, b, p + |key|, es[k].val, depth + 1);
      FieldsTurn(cfg, b, p, |es| - k, depth, NameMeanings(cfg, es, k), NarrowEntries(es, k), ReadNode(cfg, b, p, depth + 1),
                 ReadNode(cfg, b, p + |key|, depth + 1));
      ReadsNames(cfg, b, p + |key + val|, es, k + 1, depth);
    }
  }
}
