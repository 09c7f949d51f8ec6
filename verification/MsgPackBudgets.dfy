/** How many bytes a value can take at most, whatever the iteration order of its containers. */
module MsgPackBudgets {
  import opened ByteStrings
  import opened DataNodes
  import opened MsgPackCodec

  /** `n` is one of the ways to hold `v` in memory. */
  ghost predicate Orders(n: Node, v: Value) {
    Content(n) == v && DistinctKeys(n)
  }

  /** However `v` is held, it serializes to at most `c` bytes. */
  ghost predicate Within(v: Value, c: nat) {
    forall n :: Orders(n, v) ==> |Serialize(n)| <= c
  }

  // ---- Sizes of containers ----

  /** Bytes of the first k elements. */
  ghost function ElemSize(xs: seq<Node>, k: nat): nat
    requires k <= |xs|
  {
    if k == 0 then 0 else ElemSize(xs, k - 1) + |Serialize(xs[k - 1])|
  }

  ghost function FieldSize(fs: seq<Field>, k: nat): nat
    requires k <= |fs|
  {
    if k == 0 then 0 else FieldSize(fs, k - 1) + |StrBytes(fs[k - 1].key)| + |Serialize(fs[k - 1].val)|
  }

  ghost function PairSize(ps: seq<Pair>, k: nat): nat
    requires k <= |ps|
  {
    if k == 0 then 0 else PairSize(ps, k - 1) + |IntBytes(ps[k - 1].ikey)| + |Serialize(ps[k - 1].ival)|
  }

  lemma {:induction false} ElemBytesSize(xs: seq<Node>, k: nat)
    requires k <= |xs|
    ensures |ElemBytes(xs, k)| + ElemSize(xs, k) == ElemSize(xs, |xs|)
    decreases |xs| - k
  {
    hide Serialize;
    if k < |xs| {
      ElemBytesSize(xs, k + 1);
    }
  }

  lemma {:induction false} FieldBytesSize(fs: seq<Field>, k: nat)
    requires k <= |fs|
    ensures |FieldBytes(fs, k)| + FieldSize(fs, k) == FieldSize(fs, |fs|)
    decreases |fs| - k
  {
    hide Serialize, StrBytes;
    if k < |fs| {
      FieldBytesSize(fs, k + 1);
    }
  }

  lemma {:induction false} PairBytesSize(ps: seq<Pair>, k: nat)
    requires k <= |ps|
    ensures |PairBytes(ps, k)| + PairSize(ps, k) == PairSize(ps, |ps|)
    decreases |ps| - k
  {
    hide Serialize, IntBytes;
    if k < |ps| {
      PairBytesSize(ps, k + 1);
    }
  }

  lemma {:induction false} ElemSizePrefix(xs: seq<Node>, ys: seq<Node>, k: nat)
    requires k <= |xs| && k <= |ys| && xs[..k] == ys[..k]
    ensures ElemSize(xs, k) == ElemSize(ys, k)
  {
    hide Serialize;
    if k > 0 {
      assert xs[..k - 1] == xs[..k][..k - 1] == ys[..k - 1];
      assert xs[k - 1] == xs[..k][k - 1] == ys[k - 1];
      ElemSizePrefix(xs, ys, k - 1);
    }
  }

  /** Taking one field out takes its bytes out. */
  lemma {:induction false} FieldSizeWithout(fs: seq<Field>, t: nat, k: nat)
    requires t < k <= |fs|
    ensures FieldSize(fs, k) == FieldSize(fs[..t] + fs[t + 1..], k - 1) + |StrBytes(fs[t].key)| + |Serialize(fs[t].val)|
  {
    hide Serialize, StrBytes;
    if k == t + 1 {
      FieldSizePrefix(fs, fs[..t] + fs[t + 1..], t);
    } else {
      FieldSizeWithout(fs, t, k - 1);
    }
  }

  lemma {:induction false} FieldSizePrefix(fs: seq<Field>, gs: seq<Field>, k: nat)
    requires k <= |fs| && k <= |gs| && forall i :: 0 <= i < k ==> fs[i] == gs[i]
    ensures FieldSize(fs, k) == FieldSize(gs, k)
  {
    hide Serialize, StrBytes;
    if k > 0 {
      FieldSizePrefix(fs, gs, k - 1);
    }
  }

  lemma {:induction false} PairSizeWithout(ps: seq<Pair>, t: nat, k: nat)
    requires t < k <= |ps|
    ensures PairSize(ps, k) == PairSize(ps[..t] + ps[t + 1..], k - 1) + |IntBytes(ps[t].ikey)| + |Serialize(ps[t].ival)|
  {
    hide Serialize, IntBytes;
    if k == t + 1 {
      PairSizePrefix(ps, ps[..t] + ps[t + 1..], t);
    } else {
      PairSizeWithout(ps, t, k - 1);
    }
  }

  lemma {:induction false} PairSizePrefix(ps: seq<Pair>, qs: seq<Pair>, k: nat)
    requires k <= |ps| && k <= |qs| && forall i :: 0 <= i < k ==> ps[i] == qs[i]
    ensures PairSize(ps, k) == PairSize(qs, k)
  {
    hide Serialize, IntBytes;
    if k > 0 {
      PairSizePrefix(ps, qs, k - 1);
    }
  }

  // ---- Budgets of containers ----

  ghost predicate ElemsOrder(xs: seq<Node>, vs: seq<Value>) {
    |xs| == |vs| && forall i :: 0 <= i < |xs| ==> Orders(xs[i], vs[i])
  }

  ghost predicate ElemsWithin(vs: seq<Value>, c: nat) {
    forall xs :: ElemsOrder(xs, vs) ==> ElemSize(xs, |xs|) <= c
  }

  /** `fs` holds some of the entries of `m`, each key at most once. */
  ghost predicate PartOf(fs: seq<Field>, m: map<Bytes, Value>) {
    DistinctFields(fs) && forall i :: 0 <= i < |fs| ==> fs[i].key in m && Orders(fs[i].val, m[fs[i].key])
  }

  ghost predicate FieldsWithin(m: map<Bytes, Value>, c: nat) {
    forall fs :: PartOf(fs, m) ==> FieldSize(fs, |fs|) <= c
  }

  ghost predicate PairsPartOf(ps: seq<Pair>, m: map<Int64, Value>) {
    DistinctPairs(ps) && forall i :: 0 <= i < |ps| ==> ps[i].ikey in m && Orders(ps[i].ival, m[ps[i].ikey])
  }

  ghost predicate PairsWithin(m: map<Int64, Value>, c: nat) {
    forall ps :: PairsPartOf(ps, m) ==> PairSize(ps, |ps|) <= c
  }

  lemma ElemsWithinStep(vs: seq<Value>, c: nat, v: Value, d: nat)
    requires ElemsWithin(vs, c) && Within(v, d)
    ensures ElemsWithin(vs + [v], c + d)
  {
    hide Orders, Serialize;
    forall xs | ElemsOrder(xs, vs + [v])
      ensures ElemSize(xs, |xs|) <= c + d
    {
      var k := |xs| - 1;
      assert Orders(xs[k], (vs + [v])[k]);
      assert forall i :: 0 <= i < k ==> Orders(xs[i], (vs + [v])[i]);
      assert ElemsOrder(xs[..k], vs);
      ElemSizePrefix(xs, xs[..k], k);
    }
  }

  /** A later entry for a key replaces the earlier one, so the budget of both covers either. */
  lemma FieldsWithinStep(m: map<Bytes, Value>, c: nat, key: Bytes, v: Value, d: nat)
    requires FieldsWithin(m, c) && Within(v, d)
    ensures FieldsWithin(m[key := v], c + |StrBytes(key)| + d)
  {
    hide Orders, Serialize, StrBytes, FieldSize;
    forall fs: seq<Field> | PartOf(fs, m[key := v])
      ensures FieldSize(fs, |fs|) <= c + |StrBytes(key)| + d
    {
      if t: nat :| t < |fs| && fs[t].key == key {
        PartWithout(fs, t, m, key, v);
        FieldSizeWithout(fs, t, |fs|);
      } else {
        assert PartOf(fs, m);
      }
    }
  }

  lemma PartWithout(fs: seq<Field>, t: nat, m: map<Bytes, Value>, key: Bytes, v: Value)
    requires PartOf(fs, m[key := v]) && t < |fs| && fs[t].key == key
    ensures PartOf(fs[..t] + fs[t + 1..], m) && Orders(fs[t].val, v)
  {
    hide Orders;
    var gs := fs[..t] + fs[t + 1..];
    assert forall i :: 0 <= i < |gs| ==> gs[i] == fs[if i < t then i else i + 1];
  }

  lemma PairsWithinStep(m: map<Int64, Value>, c: nat, key: Int64, v: Value, d: nat)
    requires PairsWithin(m, c) && Within(v, d)
    ensures PairsWithin(m[key := v], c + |IntBytes(key)| + d)
  {
    hide Orders, Serialize, IntBytes, PairSize;
    forall ps: seq<Pair> | PairsPartOf(ps, m[key := v])
      ensures PairSize(ps, |ps|) <= c + |IntBytes(key)| + d
    {
      if t: nat :| t < |ps| && ps[t].ikey == key {
        var qs := ps[..t] + ps[t + 1..];
        assert PairsPartOf(qs, m);
        assert Orders(ps[t].ival, v);
        PairSizeWithout(ps, t, |ps|);
      } else {
        assert PairsPartOf(ps, m);
      }
    }
  }

  // ---- From parts to wholes ----

  lemma LeafWithin(v: Value, s: Bytes, c: nat)
    requires match v
             case VNull => s == [0xc0]
             case VBool(b) => |s| == 1
             case VInt(i) => s == IntBytes(i)
             case VFloat(d) => |s| == 9
             case VStr(t) => s == StrBytes(t)
             case VBinary(t) => s == BinHeader(|t|) + t
             case _ => false
    requires |s| <= c
    ensures Within(v, c)
  {
    hide IntBytes, StrBytes, BinHeader, U32;
    forall n | Orders(n, v)
      ensures |Serialize(n)| <= c
    {
    }
  }

  lemma ArrayWithin(vs: seq<Value>, c: nat)
    requires ElemsWithin(vs, c)
    ensures Within(VArray(vs), |ArrayHeader(|vs|)| + c)
  {
    hide ElemContents, ElemBytes, ArrayHeader, ElemSize;
    forall n | Orders(n, VArray(vs))
      ensures |Serialize(n)| <= |ArrayHeader(|vs|)| + c
    {
      var xs := n.elems;
      ElemContentsAt(xs, |xs|);
      assert ElemsOrder(xs, vs);
      ElemBytesSize(xs, 0);
    }
  }

  lemma ObjectWithin(m: map<Bytes, Value>, c: nat)
    requires FieldsWithin(m, c)
    ensures Within(VObject(m), |MapHeader(|m|)| + c)
  {
    hide FieldContents, FieldBytes, MapHeader, FieldSize;
    forall n | Orders(n, VObject(m))
      ensures |Serialize(n)| <= |MapHeader(|m|)| + c
    {
      var fs := n.fields;
      FieldContentsAt(fs, |fs|);
      assert PartOf(fs, m);
      FieldBytesSize(fs, 0);
    }
  }

  lemma IntMapWithin(m: map<Int64, Value>, c: nat)
    requires PairsWithin(m, c)
    ensures Within(VIntMap(m), |MapHeader(|m|)| + c)
  {
    hide PairContents, PairBytes, MapHeader, PairSize;
    forall n | Orders(n, VIntMap(m))
      ensures |Serialize(n)| <= |MapHeader(|m|)| + c
    {
      var ps := n.pairs;
      PairContentsAt(ps, |ps|);
      assert PairsPartOf(ps, m);
      PairBytesSize(ps, 0);
    }
  }
}
