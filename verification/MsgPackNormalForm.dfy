/** Reading and writing again settles at once: whatever bytes the reader accepts, however wasteful
    their headers or repetitive their keys, the value it builds survives a second trip in any
    iteration order, and the second form is no longer than the first but for widened float32 items. */
module MsgPackNormalForm {
  import opened ByteStrings
  import opened DataNodes
  import opened MsgPackCodec
  import opened MsgPackRoundTrip
  import opened MsgPackBudgets
  import opened MsgPackSettled

  /** Any way to hold an admitted value fits the reader, which gives the value back. */
  lemma {:induction false} OrdersFit(cfg: Config, n: Node, v: Value, depth: nat)
    requires Orders(n, v) && Admitted(cfg, v, depth)
    ensures Fits(cfg, n, depth) && Wire(n) == v
    decreases n, 1
  {
    match n
    case Array(xs) => ArrayFits(cfg, xs, v, depth);
    case Object(fs) => ObjectFits(cfg, fs, v, depth);
    case IntMap(ps) => IntMapFits(cfg, ps, v, depth);
    case _ =>
  }

  lemma {:induction false} ArrayFits(cfg: Config, xs: seq<Node>, v: Value, depth: nat)
    requires Orders(Array(xs), v) && Admitted(cfg, v, depth)
    ensures Fits(cfg, Array(xs), depth) && Wire(Array(xs)) == v
    decreases xs, 0
  {
    hide ElemContents, WireElems;
    ElemContentsAt(xs, |xs|);
    forall i | 0 <= i < |xs| ensures Fits(cfg, xs[i], depth + 1) && Wire(xs[i]) == Content(xs[i]) {
      OrdersFit(cfg, xs[i], v.elems[i], depth + 1);
    }
    WireElemsContents(xs, |xs|);
  }

  lemma {:induction false} ObjectFits(cfg: Config, fs: seq<Field>, v: Value, depth: nat)
    requires Orders(Object(fs), v) && Admitted(cfg, v, depth)
    ensures Fits(cfg, Object(fs), depth) && Wire(Object(fs)) == v
    decreases fs, 0
  {
    hide FieldContents, WireFields;
    FieldContentsAt(fs, |fs|);
    forall i | 0 <= i < |fs|
      ensures |fs[i].key| < TWO_32 && Fits(cfg, fs[i].val, depth + 1) && Wire(fs[i].val) == Content(fs[i].val)
    {
      OrdersFit(cfg, fs[i].val, v.fields[fs[i].key], depth + 1);
    }
    WireFieldsContents(fs, |fs|);
  }

  lemma {:induction false} IntMapFits(cfg: Config, ps: seq<Pair>, v: Value, depth: nat)
    requires Orders(IntMap(ps), v) && Admitted(cfg, v, depth)
    ensures Fits(cfg, IntMap(ps), depth) && Wire(IntMap(ps)) == v
    decreases ps, 0
  {
    hide PairContents, WirePairs;
    PairContentsAt(ps, |ps|);
    forall i | 0 <= i < |ps| ensures Fits(cfg, ps[i].ival, depth + 1) && Wire(ps[i].ival) == Content(ps[i].ival) {
      assert ps decreases to ps[i];
      OrdersFit(cfg, ps[i].ival, v.pairs[ps[i].ikey], depth + 1);
    }
    WirePairsContents(ps, |ps|);
  }

  lemma {:induction false} WireElemsContents(xs: seq<Node>, k: nat)
    requires k <= |xs| && forall i :: 0 <= i < |xs| ==> Wire(xs[i]) == Content(xs[i])
    ensures WireElems(xs, k) == ElemContents(xs, k)
  {
    hide Wire, Content;
    if k > 0 { WireElemsContents(xs, k - 1); }
  }

  lemma {:induction false} WireFieldsContents(fs: seq<Field>, k: nat)
    requires k <= |fs| && forall i :: 0 <= i < |fs| ==> Wire(fs[i].val) == Content(fs[i].val)
    ensures WireFields(fs, k) == FieldContents(fs, k)
  {
    hide Wire, Content;
    if k > 0 { WireFieldsContents(fs, k - 1); }
  }

  lemma {:induction false} WirePairsContents(ps: seq<Pair>, k: nat)
    requires k <= |ps| && forall i :: 0 <= i < |ps| ==> Wire(ps[i].ival) == Content(ps[i].ival)
    ensures WirePairs(ps, k) == PairContents(ps, k)
  {
    hide Wire, Content;
    if k > 0 { WirePairsContents(ps, k - 1); }
  }

  /** Every value can be held in memory, so the statement below is never about nothing. */
  lemma {:induction false} SomeOrder(v: Value) returns (n: Node)
    ensures Orders(n, v)
    decreases v, 1
  {
    hide ElemContents, FieldContents, PairContents;
    match v
    case VNull => n := Null;
    case VBool(b) => n := Bool(b);
    case VInt(i) => n := Int(i);
    case VFloat(d) => n := Float(d);
    case VStr(s) => n := Str(s);
    case VBinary(s) => n := Binary(s);
    case VArray(vs) =>
      var xs := SomeElems(v, |vs|);
      ElemContentsAt(xs, |xs|);
      n := Array(xs);
      assert ElemContents(xs, |xs|) == vs;
    case VObject(m) =>
      var fs := SomeFields(v, m.Keys);
      n := Object(fs);
      assert (map k | k in m.Keys :: m[k]) == m;
    case VIntMap(m) =>
      var ps := SomePairs(v, m.Keys);
      n := IntMap(ps);
      assert (map k | k in m.Keys :: m[k]) == m;
  }

  lemma {:induction false} SomeElems(v: Value, k: nat) returns (xs: seq<Node>)
    requires v.VArray? && k <= |v.elems|
    ensures ElemsOrder(xs, v.elems[..k])
    decreases v, 0, k
  {
    hide Orders;
    if k == 0 {
      xs := [];
    } else {
      var front := SomeElems(v, k - 1);
      var x := SomeOrder(v.elems[k - 1]);
      xs := front + [x];
    }
  }

  lemma {:induction false} SomeFields(v: Value, keys: set<Bytes>) returns (fs: seq<Field>)
    requires v.VObject? && keys <= v.fields.Keys
    ensures DistinctFields(fs) && forall i :: 0 <= i < |fs| ==> fs[i].key in keys && DistinctKeys(fs[i].val)
    ensures FieldContents(fs, |fs|) == map k | k in keys :: v.fields[k]
    decreases v, 0, |keys|
  {
    hide DistinctKeys, Content;
    if keys == {} {
      fs := [];
    } else {
      var k :| k in keys;
      var front := SomeFields(v, keys - {k});
      var x := SomeOrder(v.fields[k]);
      fs := front + [Field(k, x)];
      FieldContentsPrefix(front, fs, |front|);
    }
  }

  lemma {:induction false} FieldContentsPrefix(fs: seq<Field>, gs: seq<Field>, k: nat)
    requires k <= |fs| && k <= |gs| && forall i :: 0 <= i < k ==> fs[i] == gs[i]
    ensures FieldContents(fs, k) == FieldContents(gs, k)
  {
    hide Content;
    if k > 0 { FieldContentsPrefix(fs, gs, k - 1); }
  }

  lemma {:induction false} SomePairs(v: Value, keys: set<Int64>) returns (ps: seq<Pair>)
    requires v.VIntMap? && keys <= v.pairs.Keys
    ensures DistinctPairs(ps) && forall i :: 0 <= i < |ps| ==> ps[i].ikey in keys && DistinctKeys(ps[i].ival)
    ensures PairContents(ps, |ps|) == map k | k in keys :: v.pairs[k]
    decreases v, 0, |keys|
  {
    hide DistinctKeys, Content;
    if keys == {} {
      ps := [];
    } else {
      var k :| k in keys;
      var front := SomePairs(v, keys - {k});
      var x := SomeOrder(v.pairs[k]);
      ps := front + [Pair(k, x)];
      PairContentsPrefix(front, ps, |front|);
    }
  }

  lemma {:induction false} PairContentsPrefix(ps: seq<Pair>, qs: seq<Pair>, k: nat)
    requires k <= |ps| && k <= |qs| && forall i :: 0 <= i < k ==> ps[i] == qs[i]
    ensures PairContents(ps, k) == PairContents(qs, k)
  {
    hide Content;
    if k > 0 { PairContentsPrefix(ps, qs, k - 1); }
  }

  /** Normal form: for every accepted input and every iteration order of the tree it gives,
      writing that tree and reading it again gives the same value, in no more bytes than the input
      had plus four for each float32 in it. */
  lemma ReparseGivesSame(cfg: Config, b: Bytes, n: Node)
    requires Parse(cfg, b).Some? && Orders(n, Parse(cfg, b).value)
    ensures Parse(cfg, Serialize(n)) == Parse(cfg, b)
    ensures |Serialize(n)| <= |b| + 4 * ReadNode(cfg, b, 0, 0).narrow
  {
    hide ReadNode, Orders, Serialize, Wire, Fits, Admitted;
    var r := ReadNode(cfg, b, 0, 0);
    ReadSettled(cfg, b, 0, 0);
    OrdersFit(cfg, n, r.value, 0);
    ParseUndoesSerialize(cfg, n);
  }
}
