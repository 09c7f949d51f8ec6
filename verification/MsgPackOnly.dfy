/** The reader accepts nothing but MessagePack items within its limits. */
module MsgPackOnly {
  import opened ByteStrings
  import opened DataNodes
  import opened MsgPackCodec
  import opened MsgPackRoundTrip
  import opened MsgPackFormats
  import opened MsgPackReads

  // ---- Bytes that read as a number are that number ----

  lemma Put1(b: Bytes, p: nat, v: int)
    requires p < |b| && b[p] == v % 256
    ensures At(b, p, BigEndian(v, 1))
  {
    BigEndian1(v);
    assert b[p..p + 1] == [b[p]];
  }

  lemma Put16(b: Bytes, p: nat, v: int)
    requires p + 2 <= |b| && Get16(b, p) == v % TWO_16
    ensures At(b, p, U16(v))
  {
    LowBytes(b[p], b[p + 1], v);
    assert b[p..p + 2] == [b[p], b[p + 1]];
  }

  lemma LowBytes(high: Byte, low: Byte, v: int)
    requires high as int * 256 + low as int == v % TWO_16
    ensures v / 256 % 256 == high && v % 256 == low
  {
    var q := v / TWO_16;
    assert v == (q * 256 + high as int) * 256 + low as int;
    assert v / 256 == q * 256 + high as int;
  }

  lemma Put32(b: Bytes, p: nat, v: int)
    requires p + 4 <= |b| && Get32(b, p) == v % TWO_32
    ensures At(b, p, U32(v))
  {
    hide At, U16, Get16;
    assert Get16(b, p + 2) == v % TWO_16 && Get16(b, p) == v / TWO_16 % TWO_16;
    Put16(b, p, v / TWO_16);
    Put16(b, p + 2, v);
    AtConcat(b, p, U16(v / TWO_16), U16(v));
  }

  lemma Put64(b: Bytes, p: nat, v: int)
    requires p + 8 <= |b| && Get64(b, p) == v % TWO_64
    ensures At(b, p, U64(v))
  {
    hide At, U32, Get32;
    assert Get32(b, p + 4) == v % TWO_32 && Get32(b, p) == v / TWO_32 % TWO_32;
    Put32(b, p, v / TWO_32);
    Put32(b, p + 4, v);
    AtConcat(b, p, U32(v / TWO_32), U32(v));
  }

  lemma Put2(b: Bytes, p: nat, v: int)
    requires p + 2 <= |b| && Get16(b, p) == v % TWO_16
    ensures At(b, p, BigEndian(v, 2))
  {
    hide At, U16, Get16, BigEndian;
    BigEndian2(v);
    Put16(b, p, v);
  }

  lemma Put4(b: Bytes, p: nat, v: int)
    requires p + 4 <= |b| && Get32(b, p) == v % TWO_32
    ensures At(b, p, BigEndian(v, 4))
  {
    hide At, U32, Get32, BigEndian;
    BigEndian4(v);
    Put32(b, p, v);
  }

  lemma Put8(b: Bytes, p: nat, v: int)
    requires p + 8 <= |b| && Get64(b, p) == v % TWO_64
    ensures At(b, p, BigEndian(v, 8))
  {
    hide At, U64, Get64, BigEndian;
    BigEndian8(v);
    Put64(b, p, v);
  }

  /** A tag in front of something. */
  lemma Tagged(b: Bytes, p: nat, s: Bytes)
    requires p < |b| && At(b, p + 1, s)
    ensures At(b, p, [b[p]] + s)
  {
    assert b[p..p + 1] == [b[p]];
    AtConcat(b, p, [b[p]], s);
  }

  // ---- Leaves ----

  /** What the reader has taken is the item. */
  ghost predicate Taken(cfg: Config, b: Bytes, pos: nat, depth: nat, next: nat, i: Item) {
    Sound(i) && Within(cfg, i, depth) && At(b, pos, Encoded(i)) && next == pos + |Encoded(i)|
  }

  lemma OnlyNumber(cfg: Config, b: Bytes, pos: nat, depth: nat) returns (i: Item)
    requires pos < |b| && depth <= MAX_DEPTH && (0xca <= b[pos] <= 0xd3) && ReadFixed(cfg, b, pos + 1, b[pos]).Got?
    ensures Taken(cfg, b, pos, depth, ReadFixed(cfg, b, pos + 1, b[pos]).next, i)
  {
    hide At, BigEndian, Get16, Get32, Get64;
    var t, p := b[pos], pos + 1;
    if t == 0xca {
      i := Float32(Get32(b, p));
      Put4(b, p, Get32(b, p));
    } else if t == 0xcb {
      i := Float64(Get64(b, p));
      Put8(b, p, Get64(b, p));
    } else if t <= 0xcf {
      i := OnlyUnsigned(b, p, t);
    } else {
      i := OnlySigned(b, p, t);
    }
    Tagged(b, pos, Encoded(i)[1..]);
    assert Encoded(i) == [t] + Encoded(i)[1..];
  }

  lemma OnlyUnsigned(b: Bytes, p: nat, t: Byte) returns (i: Item)
    requires 0xcc <= t <= 0xcf && p + (if t == 0xcc then 1 else if t == 0xcd then 2 else if t == 0xce then 4 else 8) <= |b|
    ensures i.UInt? && Sound(i) && Encoded(i)[0] == t && i.width == (if t == 0xcc then 1 else if t == 0xcd then 2 else if t == 0xce then 4 else 8)
    ensures At(b, p, Encoded(i)[1..])
  {
    hide At, BigEndian, Get16, Get32, Get64;
    if t == 0xcc {
      i := UInt(1, b[p]);
      Put1(b, p, b[p]);
    } else if t == 0xcd {
      i := UInt(2, Get16(b, p));
      Put2(b, p, Get16(b, p));
    } else if t == 0xce {
      i := UInt(4, Get32(b, p));
      Put4(b, p, Get32(b, p));
    } else {
      i := UInt(8, Get64(b, p));
      Put8(b, p, Get64(b, p));
    }
    assert Encoded(i)[1..] == BigEndian(i.u, i.width);
  }

  lemma OnlySigned(b: Bytes, p: nat, t: Byte) returns (i: Item)
    requires 0xd0 <= t <= 0xd3 && p + (if t == 0xd0 then 1 else if t == 0xd1 then 2 else if t == 0xd2 then 4 else 8) <= |b|
    ensures i.SInt? && Sound(i) && Encoded(i)[0] == t && i.width == (if t == 0xd0 then 1 else if t == 0xd1 then 2 else if t == 0xd2 then 4 else 8)
    ensures At(b, p, Encoded(i)[1..])
  {
    hide At, BigEndian, Get16, Get32, Get64;
    if t == 0xd0 {
      i := SInt(1, Signed(b[p], 128));
      Put1(b, p, i.v);
    } else if t == 0xd1 {
      i := SInt(2, Signed(Get16(b, p), TWO_16 / 2));
      Put2(b, p, i.v);
    } else if t == 0xd2 {
      i := SInt(4, Signed(Get32(b, p), TWO_32 / 2));
      Put4(b, p, i.v);
    } else {
      i := SInt(8, Signed(Get64(b, p), TWO_64 / 2));
      Put8(b, p, i.v);
    }
    assert Encoded(i)[1..] == BigEndian(i.v, i.width);
  }

  lemma OnlySmall(cfg: Config, b: Bytes, pos: nat, depth: nat) returns (i: Item)
    requires pos < |b| && depth <= MAX_DEPTH && (b[pos] <= 0x7f || b[pos] >= 0xe0 || b[pos] in {0xc0, 0xc2, 0xc3})
    ensures Taken(cfg, b, pos, depth, pos + 1, i)
  {
    var t := b[pos];
    if t <= 0x7f || t >= 0xe0 {
      i := FixInt(Signed(t, 128));
      Put1(b, pos, Signed(t, 128));
    } else {
      i := if t == 0xc0 then Nil else Truth(t == 0xc3);
      assert b[pos..pos + 1] == [t];
    }
  }

  // ---- Heads ----

  ghost predicate HasHead(b: Bytes, pos: nat, form: Form, fix: nat, t8: Byte, t16: Byte, t32: Byte, n: nat) {
    && pos < |b|
    && match form
       case InTag => b[pos] == fix + n
       case In8 => pos + 2 <= |b| && b[pos] == t8 && b[pos + 1] == n
       case In16 => pos + 3 <= |b| && b[pos] == t16 && Get16(b, pos + 1) == n
       case In32 => pos + 5 <= |b| && b[pos] == t32 && Get32(b, pos + 1) == n
  }

  function HeadSize(form: Form): nat {
    match form
    case InTag => 1
    case In8 => 2
    case In16 => 3
    case In32 => 5
  }

  lemma PutHead(b: Bytes, pos: nat, form: Form, fix: nat, t8: Byte, t16: Byte, t32: Byte, n: nat)
    requires HasHead(b, pos, form, fix, t8, t16, t32, n)
    ensures var head := Head(form, fix, t8, t16, t32, n);
            At(b, pos, head) && |head| == HeadSize(form) && (form != InTag ==> FitsForm(form, n, 31))
  {
    match form
    case InTag => assert b[pos..pos + 1] == [b[pos]];
    case In8 =>
      Put1(b, pos + 1, n);
      Tagged(b, pos, BigEndian(n, 1));
    case In16 =>
      Put2(b, pos + 1, n);
      Tagged(b, pos, BigEndian(n, 2));
    case In32 =>
      Put4(b, pos + 1, n);
      Tagged(b, pos, BigEndian(n, 4));
  }

  lemma OnlyStr(cfg: Config, b: Bytes, pos: nat, depth: nat, form: Form, n: nat) returns (i: Item)
    requires depth <= MAX_DEPTH && HasHead(b, pos, form, 0xa0, 0xd9, 0xda, 0xdb, n) && (form == InTag ==> n <= 31)
    requires ReadStr(b, pos + HeadSize(form), n).Got?
    ensures Taken(cfg, b, pos, depth, ReadStr(b, pos + HeadSize(form), n).next, i)
  {
    hide Head, HasHead;
    var q := pos + HeadSize(form);
    i := StrItem(form, b[q..q + n]);
    PutHead(b, pos, form, 0xa0, 0xd9, 0xda, 0xdb, n);
    AtConcat(b, pos, Head(form, 0xa0, 0xd9, 0xda, 0xdb, n), i.s);
  }

  lemma OnlyBin(cfg: Config, b: Bytes, pos: nat, depth: nat, form: Form, n: nat) returns (i: Item)
    requires depth <= MAX_DEPTH && form != InTag && HasHead(b, pos, form, 0, 0xc4, 0xc5, 0xc6, n)
    requires ReadBin(b, pos + HeadSize(form), n).Got?
    ensures Taken(cfg, b, pos, depth, ReadBin(b, pos + HeadSize(form), n).next, i)
  {
    hide Head, HasHead;
    var q := pos + HeadSize(form);
    i := BinItem(form, b[q..q + n]);
    PutHead(b, pos, form, 0, 0xc4, 0xc5, 0xc6, n);
    AtConcat(b, pos, Head(form, 0, 0xc4, 0xc5, 0xc6, n), i.bin);
  }

  // ---- Containers ----

  lemma {:induction false} ElemsShift(x: Item, xs: seq<Item>, k: nat)
    requires Sound(x) && k <= |xs| && forall j :: 0 <= j < |xs| ==> Sound(xs[j])
    ensures forall j :: 0 <= j < |[x] + xs| ==> Sound(([x] + xs)[j])
    ensures EncodedElems([x] + xs, k + 1) == EncodedElems(xs, k)
    decreases |xs| - k
  {
    hide Sound, Encoded;
    if k < |xs| {
      ElemsShift(x, xs, k + 1);
      assert ([x] + xs)[k + 1] == xs[k];
    }
  }

  lemma {:induction false} EntriesShift(x: Entry, xs: seq<Entry>, k: nat)
    requires Sound(x.key) && Sound(x.val) && k <= |xs| && forall j :: 0 <= j < |xs| ==> Sound(xs[j].key) && Sound(xs[j].val)
    ensures forall j :: 0 <= j < |[x] + xs| ==> Sound(([x] + xs)[j].key) && Sound(([x] + xs)[j].val)
    ensures EncodedEntries([x] + xs, k + 1) == EncodedEntries(xs, k)
    decreases |xs| - k
  {
    hide Sound, Encoded;
    if k < |xs| {
      EntriesShift(x, xs, k + 1);
      assert ([x] + xs)[k + 1] == xs[k];
    }
  }

  ghost predicate TakenElems(cfg: Config, b: Bytes, p: nat, count: nat, depth: nat, next: nat, xs: seq<Item>) {
    && |xs| == count && (forall j :: 0 <= j < |xs| ==> Sound(xs[j]) && Within(cfg, xs[j], depth + 1))
    && At(b, p, EncodedElems(xs, 0)) && next == p + |EncodedElems(xs, 0)|
  }

  ghost predicate TakenEntries(cfg: Config, b: Bytes, p: nat, count: nat, depth: nat, next: nat, es: seq<Entry>, ints: bool) {
    && |es| == count && (forall j :: 0 <= j < |es| ==> Sound(es[j].key) && Sound(es[j].val))
    && (forall j :: 0 <= j < |es| ==> Within(cfg, es[j].key, depth + 1) && Within(cfg, es[j].val, depth + 1))
    && (forall j :: 0 <= j < |es| ==> if ints then IntItem(es[j].key) else es[j].key.StrItem?)
    && At(b, p, EncodedEntries(es, 0)) && next == p + |EncodedEntries(es, 0)|
  }

  lemma OneMoreElem(cfg: Config, b: Bytes, p: nat, count: nat, depth: nat, mid: nat, next: nat, x: Item, xs: seq<Item>)
    requires Taken(cfg, b, p, depth + 1, mid, x) && TakenElems(cfg, b, mid, count, depth, next, xs)
    ensures TakenElems(cfg, b, p, count + 1, depth, next, [x] + xs)
  {
    hide At, Sound, Within, Encoded;
    ElemsShift(x, xs, 0);
    AtConcat(b, p, Encoded(x), EncodedElems(xs, 0));
    assert EncodedElems([x] + xs, 0) == Encoded(x) + EncodedElems([x] + xs, 1);
  }

  lemma OneMoreEntry(cfg: Config, b: Bytes, p: nat, count: nat, depth: nat, q: nat, mid: nat, next: nat, key: Item, val: Item, es: seq<Entry>, ints: bool)
    requires Taken(cfg, b, p, depth + 1, q, key) && Taken(cfg, b, q, depth + 1, mid, val) && (if ints then IntItem(key) else key.StrItem?)
    requires TakenEntries(cfg, b, mid, count, depth, next, es, ints)
    ensures TakenEntries(cfg, b, p, count + 1, depth, next, [Entry(key, val)] + es, ints)
  {
    hide At, Sound, Within, Encoded, IntItem;
    var e := Entry(key, val);
    EntriesShift(e, es, 0);
    AtConcat(b, p, Encoded(key), Encoded(val));
    AtConcat(b, p, Encoded(key) + Encoded(val), EncodedEntries(es, 0));
    assert EncodedEntries([e] + es, 0) == Encoded(key) + Encoded(val) + EncodedEntries([e] + es, 1);
  }

  /** What an item means tells what kind it is. */
  lemma KindOf(cfg: Config, i: Item)
    ensures Means(cfg, i).VInt? <==> IntItem(i)
    ensures Means(cfg, i).VStr? <==> i.StrItem?
  {
  }

  lemma {:induction false} OnlyItems(cfg: Config, b: Bytes, pos: nat, depth: nat) returns (i: Item)
    requires ReadNode(cfg, b, pos, depth).Got?
    ensures Taken(cfg, b, pos, depth, ReadNode(cfg, b, pos, depth).next, i)
    decreases |b| - pos, 5
  {
    hide Taken, ReadArray, ReadMap, Get16, Get32, Get64, ReadBin, ReadStr;
    var t: nat, p := b[pos], pos + 1;
    if t <= 0x7f || t >= 0xe0 {
      i := OnlySmall(cfg, b, pos, depth);
    } else if t <= 0x8f {
      i := OnlyMap(cfg, b, pos, depth, InTag, t - 0x80);
    } else if t <= 0x9f {
      i := OnlyArray(cfg, b, pos, depth, InTag, t - 0x90);
    } else if t <= 0xbf {
      i := OnlyStr(cfg, b, pos, depth, InTag, t - 0xa0);
    } else if t <= 0xc3 {
      i := OnlySmall(cfg, b, pos, depth);
    } else if t <= 0xc6 {
      i := OnlyBin(cfg, b, pos, depth, if t == 0xc4 then In8 else if t == 0xc5 then In16 else In32,
                   if t == 0xc4 then b[p] else if t == 0xc5 then Get16(b, p) else Get32(b, p));
    } else if t <= 0xd3 {
      i := OnlyNumber(cfg, b, pos, depth);
    } else if t <= 0xdb {
      i := OnlyStr(cfg, b, pos, depth, if t == 0xd9 then In8 else if t == 0xda then In16 else In32,
                   if t == 0xd9 then b[p] else if t == 0xda then Get16(b, p) else Get32(b, p));
    } else if t <= 0xdd {
      i := OnlyArray(cfg, b, pos, depth, if t == 0xdc then In16 else In32, if t == 0xdc then Get16(b, p) else Get32(b, p));
    } else {
      i := OnlyMap(cfg, b, pos, depth, if t == 0xde then In16 else In32, if t == 0xde then Get16(b, p) else Get32(b, p));
    }
  }

  lemma {:induction false} OnlyArray(cfg: Config, b: Bytes, pos: nat, depth: nat, form: Form, n: nat) returns (i: Item)
    requires depth <= MAX_DEPTH && form != In8 && HasHead(b, pos, form, 0x90, 0, 0xdc, 0xdd, n) && (form == InTag ==> n <= 15)
    requires pos + HeadSize(form) <= |b| && ReadArray(cfg, b, pos + HeadSize(form), n, depth).Got?
    ensures Taken(cfg, b, pos, depth, ReadArray(cfg, b, pos + HeadSize(form), n, depth).next, i)
    decreases |b| - pos, 4
  {
    hide Head, HasHead, ReadElems, At, EncodedElems;
    var q := pos + HeadSize(form);
    var xs := OnlyElems(cfg, b, q, n, depth, [], 0);
    i := ArrayItem(form, xs);
    PutHead(b, pos, form, 0x90, 0, 0xdc, 0xdd, n);
    AtConcat(b, pos, Head(form, 0x90, 0, 0xdc, 0xdd, n), EncodedElems(xs, 0));
  }

  lemma {:induction false} OnlyElems(cfg: Config, b: Bytes, p: nat, count: nat, depth: nat, acc: seq<Value>, narrow: nat) returns (xs: seq<Item>)
    requires p <= |b| && ReadElems(cfg, b, p, count, depth, acc, narrow).Got?
    ensures TakenElems(cfg, b, p, count, depth, ReadElems(cfg, b, p, count, depth, acc, narrow).next, xs)
    decreases |b| - p, 6
  {
    hide ReadNode, Taken;
    if count == 0 {
      xs := [];
    } else {
      hide TakenElems;
      var e := ReadNode(cfg, b, p, depth + 1);
      var x := OnlyItems(cfg, b, p, depth + 1);
      var rest := OnlyElems(cfg, b, e.next, count - 1, depth, acc + [e.value], narrow + e.narrow);
      xs := [x] + rest;
      OneMoreElem(cfg, b, p, count - 1, depth, e.next, ReadElems(cfg, b, p, count, depth, acc, narrow).next, x, rest);
    }
  }

  lemma {:induction false} OnlyMap(cfg: Config, b: Bytes, pos: nat, depth: nat, form: Form, n: nat) returns (i: Item)
    requires depth <= MAX_DEPTH && form != In8 && HasHead(b, pos, form, 0x80, 0, 0xde, 0xdf, n) && (form == InTag ==> n <= 15)
    requires pos + HeadSize(form) <= |b| && ReadMap(cfg, b, pos + HeadSize(form), n, depth).Got?
    ensures Taken(cfg, b, pos, depth, ReadMap(cfg, b, pos + HeadSize(form), n, depth).next, i)
    decreases |b| - pos, 4
  {
    hide Head, HasHead, ReadPairs, ReadFields, At, IntKeyTag, StrKeyTag;
    var q := pos + HeadSize(form);
    var es: seq<Entry> := [];
    PutHead(b, pos, form, 0x80, 0, 0xde, 0xdf, n);
    if n > 0 {
      if IntKeyTag(b[q]) {
        es := OnlyPairs(cfg, b, q, n, depth, map[], 0);
      } else {
        es := OnlyFields(cfg, b, q, n, depth, map[], 0);
      }
    } else {
      NoEntries(b, q);
    }
    i := MapItem(form, es);
    AtConcat(b, pos, Head(form, 0x80, 0, 0xde, 0xdf, n), EncodedEntries(es, 0));
  }

  lemma NoEntries(b: Bytes, q: nat)
    requires q <= |b|
    ensures EncodedEntries([], 0) == [] && At(b, q, [])
  {
  }

  lemma {:induction false} OnlyPairs(cfg: Config, b: Bytes, p: nat, count: nat, depth: nat, acc: map<Int64, Value>, narrow: nat) returns (es: seq<Entry>)
    requires p <= |b| && ReadPairs(cfg, b, p, count, depth, acc, narrow).Got?
    ensures TakenEntries(cfg, b, p, count, depth, ReadPairs(cfg, b, p, count, depth, acc, narrow).next, es, true)
    decreases |b| - p, 6
  {
    hide ReadNode, Taken;
    if count == 0 {
      es := [];
    } else {
      hide TakenEntries;
      var k := ReadNode(cfg, b, p, depth + 1);
      var v := ReadNode(cfg, b, k.next, depth + 1);
      var key := OnlyItems(cfg, b, p, depth + 1);
      var val := OnlyItems(cfg, b, k.next, depth + 1);
      KeyKind(cfg, b, p, depth + 1, key);
      var rest := OnlyPairs(cfg, b, v.next, count - 1, depth, acc[k.value.i := v.value], narrow + v.narrow);
      es := [Entry(key, val)] + rest;
      OneMoreEntry(cfg, b, p, count - 1, depth, k.next, v.next, ReadPairs(cfg, b, p, count, depth, acc, narrow).next, key, val, rest, true);
    }
  }

  lemma KeyKind(cfg: Config, b: Bytes, p: nat, depth: nat, i: Item)
    requires ReadNode(cfg, b, p, depth).Got? && Taken(cfg, b, p, depth, ReadNode(cfg, b, p, depth).next, i)
    ensures ReadNode(cfg, b, p, depth).value.VInt? <==> IntItem(i)
    ensures ReadNode(cfg, b, p, depth).value.VStr? <==> i.StrItem?
  {
    hide ReadNode, Sound, Within, Means, At;
    ReadsItem(cfg, b, p, i, depth);
    KindOf(cfg, i);
  }

  lemma {:induction false} OnlyFields(cfg: Config, b: Bytes, p: nat, count: nat, depth: nat, acc: map<Bytes, Value>, narrow: nat) returns (es: seq<Entry>)
    requires p <= |b| && ReadFields(cfg, b, p, count, depth, acc, narrow).Got?
    ensures TakenEntries(cfg, b, p, count, depth, ReadFields(cfg, b, p, count, depth, acc, narrow).next, es, false)
    decreases |b| - p, 6
  {
    hide ReadNode, Taken;
    if count == 0 {
      es := [];
    } else {
      hide TakenEntries;
      var k := ReadNode(cfg, b, p, depth + 1);
      var v := ReadNode(cfg, b, k.next, depth + 1);
      var key := OnlyItems(cfg, b, p, depth + 1);
      var val := OnlyItems(cfg, b, k.next, depth + 1);
      KeyKind(cfg, b, p, depth + 1, key);
      var rest := OnlyFields(cfg, b, v.next, count - 1, depth, acc[k.value.s := v.value], narrow + v.narrow);
      es := [Entry(key, val)] + rest;
      OneMoreEntry(cfg, b, p, count - 1, depth, k.next, v.next, ReadFields(cfg, b, p, count, depth, acc, narrow).next, key, val, rest, false);
    }
  }

  /** The whole reader: an input is accepted as a value exactly when it is, all of it, the bytes of an
      item within the limits that means the value. */
  lemma ParsesExactlyItems(cfg: Config, b: Bytes, v: Value)
    ensures Parse(cfg, b) == Some(v) <==>
              exists i :: Sound(i) && Within(cfg, i, 0) && b == Encoded(i) && v == Means(cfg, i)
  {
    hide ReadNode, Sound, Within, Means;
    var r := ReadNode(cfg, b, 0, 0);
    if Parse(cfg, b) == Some(v) {
      var i := OnlyItems(cfg, b, 0, 0);
      ReadsItem(cfg, b, 0, i, 0);
      assert b == b[0..|b|];
    }
    if i :| Sound(i) && Within(cfg, i, 0) && b == Encoded(i) && v == Means(cfg, i) {
      assert b == b[0..|b|];
      ReadsItem(cfg, b, 0, i, 0);
    }
  }
}
