/** What the reader guarantees of every value it returns: its own limits, and a size bound for any way
    to write it again. */
module MsgPackSettled {
  import opened ByteStrings
  import opened DataNodes
  import opened MsgPackCodec
  import opened MsgPackBudgets

  // ---- What the reader guarantees of a value ----

  /** Limits that every value the reader returns keeps; an integer-keyed map is never empty. */
  ghost predicate Admitted(cfg: Config, v: Value, depth: nat) {
    && depth <= MAX_DEPTH
    && match v
       case VStr(s) => |s| < TWO_32
       case VBinary(s) => |s| < TWO_32
       case VArray(vs) =>
         && |vs| <= cfg.maxElements && |vs| < TWO_32
         && forall i :: 0 <= i < |vs| ==> Admitted(cfg, vs[i], depth + 1)
       case VObject(m) =>
         && |m| <= cfg.maxElements && |m| < TWO_32
         && forall k :: k in m ==> |k| < TWO_32 && Admitted(cfg, m[k], depth + 1)
       case VIntMap(m) =>
         && 0 < |m| <= cfg.maxElements && |m| < TWO_32
         && forall k :: k in m ==> Admitted(cfg, m[k], depth + 1)
       case _ => true
  }

  ghost predicate ElemsAdmitted(cfg: Config, vs: seq<Value>, depth: nat) {
    forall i :: 0 <= i < |vs| ==> Admitted(cfg, vs[i], depth)
  }

  ghost predicate FieldsAdmitted(cfg: Config, m: map<Bytes, Value>, depth: nat) {
    forall k :: k in m ==> |k| < TWO_32 && Admitted(cfg, m[k], depth)
  }

  ghost predicate PairsAdmitted(cfg: Config, m: map<Int64, Value>, depth: nat) {
    forall k :: k in m ==> Admitted(cfg, m[k], depth)
  }

  /** The value keeps the limits, and in any order takes no more room than the `used` bytes it was
      read from, give or take four bytes for each float32. */
  ghost predicate Settled(cfg: Config, r: Read, used: int, depth: nat)
    requires r.Got?
  {
    && used >= 0
    && Admitted(cfg, r.value, depth)
    && Within(r.value, used + 4 * r.narrow)
    && (r.value.VStr? || r.value.VInt? ==> r.narrow == 0)
  }

  lemma IntSize(v: Int64)
    ensures |IntBytes(v)| <= 9
    ensures -32 <= v <= 0x7f ==> |IntBytes(v)| == 1
    ensures -128 <= v <= 0xff ==> |IntBytes(v)| <= 2
    ensures -32768 <= v <= 0xffff ==> |IntBytes(v)| <= 3
    ensures -0x8000_0000 <= v <= 0xffff_ffff ==> |IntBytes(v)| <= 5
  {
    hide U8, U16, U32, U64;
  }

  lemma SettledInt(cfg: Config, v: Int64, next: nat, used: nat, depth: nat)
    requires depth <= MAX_DEPTH && |IntBytes(v)| <= used
    ensures Settled(cfg, Got(VInt(v), next, 0), used, depth)
  {
    hide Within, IntBytes;
    LeafWithin(VInt(v), IntBytes(v), used);
  }

  lemma SettledStr(cfg: Config, b: Bytes, p: nat, len: nat, used: nat, depth: nat)
    requires depth <= MAX_DEPTH && len < TWO_32 && |StrHeader(len)| <= used
    ensures var r := ReadStr(b, p, len); r.Got? ==> Settled(cfg, r, used + r.next - p, depth)
  {
    hide Within, StrHeader;
    if p + len <= |b| {
      var s := b[p..p + len];
      LeafWithin(VStr(s), StrBytes(s), used + len);
    }
  }

  lemma SettledBin(cfg: Config, b: Bytes, p: nat, len: nat, used: nat, depth: nat)
    requires depth <= MAX_DEPTH && len < TWO_32 && |BinHeader(len)| <= used
    ensures var r := ReadBin(b, p, len); r.Got? ==> Settled(cfg, r, used + r.next - p, depth)
  {
    hide Within, BinHeader;
    if p + len <= |b| {
      var s := b[p..p + len];
      LeafWithin(VBinary(s), BinHeader(|s|) + s, used + len);
    }
  }

  lemma FixedSettled(cfg: Config, b: Bytes, p: nat, t: nat, depth: nat)
    requires p <= |b| && 0xc0 <= t <= 0xd3 && depth <= MAX_DEPTH
    ensures var r := ReadFixed(cfg, b, p, t); r.Got? ==> Settled(cfg, r, 1 + r.next - p, depth)
  {
    hide Within, Get16, Get32, Get64, IntBytes, Settled, ReadBin, U8, U16, U32;
    var r := ReadFixed(cfg, b, p, t);
    if r.Got? {
      if 0xc4 <= t <= 0xc6 {
        var w := if t == 0xc4 then 1 else if t == 0xc5 then 2 else 4;
        var len: nat := if t == 0xc4 then b[p] else if t == 0xc5 then Get16(b, p) else Get32(b, p);
        SettledBin(cfg, b, p + w, len, 1 + w, depth);
      } else if t >= 0xcc {
        IntSize(r.value.i);
        SettledInt(cfg, r.value.i, r.next, 1 + r.next - p, depth);
      } else {
        SettledConstant(cfg, r, 1 + r.next - p, depth);
      }
    }
  }

  lemma SettledConstant(cfg: Config, r: Read, used: nat, depth: nat)
    requires r.Got? && depth <= MAX_DEPTH
    requires ((r.value.VNull? || r.value.VBool?) && used >= 1) || (r.value.VFloat? && used + 4 * r.narrow >= 9)
    ensures Settled(cfg, r, used, depth)
  {
    hide Within;
    var s := if r.value.VFloat? then [0xcb, 0, 0, 0, 0, 0, 0, 0, 0] else [0xc0];
    LeafWithin(r.value, s, used + 4 * r.narrow);
  }

  lemma HeaderGrows(a: nat, b: nat)
    requires a <= b
    ensures |ArrayHeader(a)| <= |ArrayHeader(b)| && |MapHeader(a)| <= |MapHeader(b)|
  {
    hide U16, U32;
  }

  lemma WithinMore(v: Value, c: nat, d: nat)
    requires Within(v, c) && c <= d
    ensures Within(v, d)
  {
    hide Orders, Serialize;
  }

  // ---- The reader, function by function ----

  lemma {:induction false} ReadSettled(cfg: Config, b: Bytes, pos: nat, depth: nat)
    requires ReadNode(cfg, b, pos, depth).Got?
    ensures var r := ReadNode(cfg, b, pos, depth); Settled(cfg, r, r.next - pos, depth)
    decreases |b| - pos, 1
  {
    hide ReadMap, ReadArray, ReadFixed, ReadSized, Settled, ReadStr, IntBytes, StrHeader, ArrayHeader, MapHeader;
    var t: nat, p := b[pos], pos + 1;
    if t <= 0x7f || t >= 0xe0 {
      var v := if t <= 0x7f then t else t - 256;
      IntSize(v);
      SettledInt(cfg, v, p, 1, depth);
    } else if t <= 0x8f {
      SmallHeaders(t - 0x80);
      MapSettled(cfg, b, p, t - 0x80, depth, 1);
    } else if t <= 0x9f {
      SmallHeaders(t - 0x90);
      ArraySettled(cfg, b, p, t - 0x90, depth, 1);
    } else if t <= 0xbf {
      SmallHeaders(t - 0xa0);
      SettledStr(cfg, b, p, t - 0xa0, 1, depth);
    } else if t <= 0xd3 {
      FixedSettled(cfg, b, p, t, depth);
    } else {
      SizedSettled(cfg, b, p, t, depth);
    }
  }

  lemma SmallHeaders(n: nat)
    ensures n <= 15 ==> |MapHeader(n)| == |ArrayHeader(n)| == 1
    ensures n <= 31 ==> |StrHeader(n)| == 1
    ensures n <= 0xff ==> |StrHeader(n)| <= 2
    ensures n <= 0xffff ==> |MapHeader(n)| <= 3 && |ArrayHeader(n)| <= 3 && |StrHeader(n)| <= 3
    ensures |MapHeader(n)| <= 5 && |ArrayHeader(n)| <= 5 && |StrHeader(n)| <= 5
  {
    hide U8, U16, U32;
  }

  lemma {:induction false} SizedSettled(cfg: Config, b: Bytes, p: nat, t: nat, depth: nat)
    requires p <= |b| && depth <= MAX_DEPTH
    ensures var r := ReadSized(cfg, b, p, t, depth); r.Got? ==> Settled(cfg, r, 1 + r.next - p, depth)
    decreases |b| - p, 4
  {
    hide ReadMap, ReadArray, Settled, ReadStr, StrHeader, ArrayHeader, MapHeader, Get16, Get32;
    var r := ReadSized(cfg, b, p, t, depth);
    if r.Got? {
      var w := if t == 0xd9 then 1 else if t == 0xda || t == 0xdc || t == 0xde then 2 else 4;
      var n: nat := if w == 1 then b[p] else if w == 2 then Get16(b, p) else Get32(b, p);
      SmallHeaders(n);
      if t <= 0xdb {
        SettledStr(cfg, b, p + w, n, 1 + w, depth);
      } else if t <= 0xdd {
        ArraySettled(cfg, b, p + w, n, depth, 1 + w);
      } else {
        MapSettled(cfg, b, p + w, n, depth, 1 + w);
      }
    }
  }

  lemma {:induction false} ArraySettled(cfg: Config, b: Bytes, p: nat, count: nat, depth: nat, h: nat)
    requires p <= |b| && depth <= MAX_DEPTH && count < TWO_32 && |ArrayHeader(count)| <= h
    ensures var r := ReadArray(cfg, b, p, count, depth); r.Got? ==> Settled(cfg, r, h + r.next - p, depth)
    decreases |b| - p, 3
  {
    hide ReadElems, ElemsWithin, Within, ArrayHeader;
    var r := ReadArray(cfg, b, p, count, depth);
    if r.Got? {
      NoElems(cfg, depth + 1);
      ElemsSettled(cfg, b, p, count, depth, [], 0, 0);
      var c := r.next - p + 4 * r.narrow;
      ArrayWithin(r.value.elems, c);
      WithinMore(r.value, |ArrayHeader(count)| + c, h + c);
    }
  }

  lemma NoElems(cfg: Config, depth: nat)
    ensures ElemsWithin([], 0) && ElemsAdmitted(cfg, [], depth)
  {
  }

  lemma NoFields(cfg: Config, depth: nat)
    ensures FieldsWithin(map[], 0) && FieldsAdmitted(cfg, map[], depth)
  {
    hide Orders;
    var none: map<Bytes, Value> := map[];
    forall fs: seq<Field>
      ensures PartOf(fs, none) ==> FieldSize(fs, |fs|) <= 0
    {
      if |fs| > 0 { assert fs[0].key !in none; }
    }
  }

  lemma NoPairs(cfg: Config, depth: nat)
    ensures PairsWithin(map[], 0) && PairsAdmitted(cfg, map[], depth)
  {
    hide Orders;
    var none: map<Int64, Value> := map[];
    forall ps: seq<Pair>
      ensures PairsPartOf(ps, none) ==> PairSize(ps, |ps|) <= 0
    {
      if |ps| > 0 { assert ps[0].ikey !in none; }
    }
  }

  lemma {:induction false} ElemsSettled(cfg: Config, b: Bytes, p: nat, count: nat, depth: nat, acc: seq<Value>, narrow: nat, c: nat)
    requires p <= |b| && ElemsWithin(acc, c) && ElemsAdmitted(cfg, acc, depth + 1)
    ensures var r := ReadElems(cfg, b, p, count, depth, acc, narrow);
            r.Got? ==>
              && r.value.VArray? && |r.value.elems| == |acc| + count
              && narrow <= r.narrow
              && ElemsWithin(r.value.elems, c + r.next - p + 4 * (r.narrow - narrow))
              && ElemsAdmitted(cfg, r.value.elems, depth + 1)
    decreases |b| - p, 2
  {
    hide ReadNode, ElemsWithin, Within, Admitted;
    var r := ReadElems(cfg, b, p, count, depth, acc, narrow);
    if r.Got? && count > 0 {
      var e := ReadNode(cfg, b, p, depth + 1);
      ReadSettled(cfg, b, p, depth + 1);
      var d := e.next - p + 4 * e.narrow;
      ElemsWithinStep(acc, c, e.value, d);
      ElemsSettled(cfg, b, e.next, count - 1, depth, acc + [e.value], narrow + e.narrow, c + d);
    }
  }

  lemma {:induction false} MapSettled(cfg: Config, b: Bytes, p: nat, count: nat, depth: nat, h: nat)
    requires p <= |b| && depth <= MAX_DEPTH && count < TWO_32 && |MapHeader(count)| <= h
    ensures var r := ReadMap(cfg, b, p, count, depth); r.Got? ==> Settled(cfg, r, h + r.next - p, depth)
    decreases |b| - p, 3
  {
    hide ReadFields, ReadPairs, FieldsWithin, PairsWithin, MapHeader, FieldsAdmitted, PairsAdmitted, Settled, IntKeyTag, StrKeyTag;
    var r := ReadMap(cfg, b, p, count, depth);
    if r.Got? {
      NoFields(cfg, depth + 1);
      NoPairs(cfg, depth + 1);
      if count == 0 {
        SettledObject(cfg, r, 0, count, h, depth);
      } else if IntKeyTag(b[p]) {
        PairsSettled(cfg, b, p, count, depth, map[], 0, 0);
        SettledIntMap(cfg, r, r.next - p, count, h, depth);
      } else {
        FieldsSettled(cfg, b, p, count, depth, map[], 0, 0);
        SettledObject(cfg, r, r.next - p, count, h, depth);
      }
    }
  }

  lemma SettledObject(cfg: Config, r: Read, used: nat, count: nat, h: nat, depth: nat)
    requires r.Got? && r.value.VObject? && |r.value.fields| <= count <= cfg.maxElements && count < TWO_32
    requires depth <= MAX_DEPTH && |MapHeader(count)| <= h
    requires FieldsWithin(r.value.fields, used + 4 * r.narrow) && FieldsAdmitted(cfg, r.value.fields, depth + 1)
    ensures Settled(cfg, r, h + used, depth)
  {
    hide FieldsWithin, Within, MapHeader;
    var m, c := r.value.fields, used + 4 * r.narrow;
    ObjectWithin(m, c);
    HeaderGrows(|m|, count);
    WithinMore(r.value, |MapHeader(|m|)| + c, h + c);
  }

  lemma SettledIntMap(cfg: Config, r: Read, used: nat, count: nat, h: nat, depth: nat)
    requires r.Got? && r.value.VIntMap? && 0 < |r.value.pairs| <= count <= cfg.maxElements && count < TWO_32
    requires depth <= MAX_DEPTH && |MapHeader(count)| <= h
    requires PairsWithin(r.value.pairs, used + 4 * r.narrow) && PairsAdmitted(cfg, r.value.pairs, depth + 1)
    ensures Settled(cfg, r, h + used, depth)
  {
    hide PairsWithin, Within, MapHeader;
    var m, c := r.value.pairs, used + 4 * r.narrow;
    IntMapWithin(m, c);
    HeaderGrows(|m|, count);
    WithinMore(r.value, |MapHeader(|m|)| + c, h + c);
  }

  /** A key was read from at least as many bytes as it is written in. */
  lemma KeySize(cfg: Config, r: Read, used: nat, depth: nat)
    requires r.Got? && Settled(cfg, r, used, depth)
    ensures r.value.VStr? ==> |StrBytes(r.value.s)| <= used && |r.value.s| < TWO_32
    ensures r.value.VInt? ==> |IntBytes(r.value.i)| <= used
  {
    hide StrBytes, IntBytes;
    if r.value.VStr? {
      assert Orders(Str(r.value.s), r.value);
      assert Serialize(Str(r.value.s)) == StrBytes(r.value.s);
    } else if r.value.VInt? {
      assert Orders(Int(r.value.i), r.value);
      assert Serialize(Int(r.value.i)) == IntBytes(r.value.i);
    }
  }

  lemma {:induction false} FieldsSettled(cfg: Config, b: Bytes, p: nat, count: nat, depth: nat, acc: map<Bytes, Value>, narrow: nat, c: nat)
    requires p <= |b| && FieldsWithin(acc, c) && FieldsAdmitted(cfg, acc, depth + 1)
    ensures var r := ReadFields(cfg, b, p, count, depth, acc, narrow);
            r.Got? ==>
              && r.value.VObject? && |r.value.fields| <= |acc| + count
              && narrow <= r.narrow
              && FieldsWithin(r.value.fields, c + r.next - p + 4 * (r.narrow - narrow))
              && FieldsAdmitted(cfg, r.value.fields, depth + 1)
    decreases |b| - p, 2
  {
    hide ReadNode, FieldsWithin, FieldsAdmitted, Within, Admitted, StrBytes;
    var r := ReadFields(cfg, b, p, count, depth, acc, narrow);
    if r.Got? && count > 0 {
      var k := ReadNode(cfg, b, p, depth + 1);
      ReadSettled(cfg, b, p, depth + 1);
      KeySize(cfg, k, k.next - p, depth + 1);
      var key := k.value.s;
      var v := ReadNode(cfg, b, k.next, depth + 1);
      ReadSettled(cfg, b, k.next, depth + 1);
      var d := v.next - k.next + 4 * v.narrow;
      FieldsWithinStep(acc, c, key, v.value, d);
      FieldsWithinMore(acc[key := v.value], c + |StrBytes(key)| + d, c + (k.next - p) + d);
      FieldsAdmittedStep(cfg, acc, key, v.value, depth + 1);
      FieldsSettled(cfg, b, v.next, count - 1, depth, acc[key := v.value], narrow + v.narrow, c + (k.next - p) + d);
    }
  }

  lemma FieldsAdmittedStep(cfg: Config, m: map<Bytes, Value>, key: Bytes, v: Value, depth: nat)
    requires FieldsAdmitted(cfg, m, depth) && |key| < TWO_32 && Admitted(cfg, v, depth)
    ensures FieldsAdmitted(cfg, m[key := v], depth)
  {
    hide Admitted;
  }

  lemma FieldsWithinMore(m: map<Bytes, Value>, c: nat, d: nat)
    requires FieldsWithin(m, c) && c <= d
    ensures FieldsWithin(m, d)
  {
    hide PartOf, FieldSize;
  }

  lemma PairsWithinMore(m: map<Int64, Value>, c: nat, d: nat)
    requires PairsWithin(m, c) && c <= d
    ensures PairsWithin(m, d)
  {
    hide PairsPartOf, PairSize;
  }

  lemma {:induction false} PairsSettled(cfg: Config, b: Bytes, p: nat, count: nat, depth: nat, acc: map<Int64, Value>, narrow: nat, c: nat)
    requires p <= |b| && PairsWithin(acc, c) && PairsAdmitted(cfg, acc, depth + 1)
    ensures var r := ReadPairs(cfg, b, p, count, depth, acc, narrow);
            r.Got? ==>
              && r.value.VIntMap? && |r.value.pairs| <= |acc| + count
              && (count > 0 || |acc| > 0 ==> |r.value.pairs| > 0)
              && narrow <= r.narrow
              && PairsWithin(r.value.pairs, c + r.next - p + 4 * (r.narrow - narrow))
              && PairsAdmitted(cfg, r.value.pairs, depth + 1)
    decreases |b| - p, 2
  {
    hide ReadNode, PairsWithin, Within, Admitted, IntBytes;
    var r := ReadPairs(cfg, b, p, count, depth, acc, narrow);
    if r.Got? && count > 0 {
      var k := ReadNode(cfg, b, p, depth + 1);
      ReadSettled(cfg, b, p, depth + 1);
      KeySize(cfg, k, k.next - p, depth + 1);
      var key := k.value.i;
      var v := ReadNode(cfg, b, k.next, depth + 1);
      ReadSettled(cfg, b, k.next, depth + 1);
      var d := v.next - k.next + 4 * v.narrow;
      PairsWithinStep(acc, c, key, v.value, d);
      PairsWithinMore(acc[key := v.value], c + |IntBytes(key)| + d, c + (k.next - p) + d);
      assert key in acc[key := v.value];
      PairsSettled(cfg, b, v.next, count - 1, depth, acc[key := v.value], narrow + v.narrow, c + (k.next - p) + d);
    }
  }
}
