/** The reader's limits are exact: a serialized tree over one of them is refused as a whole. */
module MsgPackLimits {
  import opened ByteStrings
  import opened DataNodes
  import opened MsgPackCodec
  import opened MsgPackRoundTrip

  /** Every size fits the 32-bit header it is written with. */
  ghost predicate Sized(n: Node) {
    match n
    case Str(s) => |s| < TWO_32
    case Binary(s) => |s| < TWO_32
    case Array(xs) => |xs| < TWO_32 && forall i :: 0 <= i < |xs| ==> Sized(xs[i])
    case Object(fs) => |fs| < TWO_32 && forall i :: 0 <= i < |fs| ==> |fs[i].key| < TWO_32 && Sized(fs[i].val)
    case IntMap(ps) => |ps| < TWO_32 && forall i :: 0 <= i < |ps| ==> Sized(ps[i].ival)
    case _ => true
  }

  lemma TooDeep(cfg: Config, b: Bytes, p: nat, depth: nat)
    requires depth > MAX_DEPTH
    ensures ReadNode(cfg, b, p, depth).Fail?
  {
  }

  lemma TooMany(cfg: Config, b: Bytes, p: nat, count: nat, depth: nat)
    requires p <= |b| && count > cfg.maxElements
    ensures ReadArray(cfg, b, p, count, depth).Fail? && ReadMap(cfg, b, p, count, depth).Fail?
  {
    hide ReadElems, ReadPairs, ReadFields;
  }

  /** A loop stops at the first item it cannot read. */
  lemma ReadElemsFails(cfg: Config, b: Bytes, p: nat, count: nat, depth: nat, acc: seq<Value>)
    requires p <= |b| && count > 0 && ReadNode(cfg, b, p, depth + 1).Fail?
    ensures ReadElems(cfg, b, p, count, depth, acc, 0).Fail?
  {
    hide ReadNode;
  }

  lemma ReadFieldsFails(cfg: Config, b: Bytes, p: nat, count: nat, depth: nat, acc: map<Bytes, Value>)
    requires p <= |b| && count > 0
    requires var k := ReadNode(cfg, b, p, depth + 1); k.Fail? || ReadNode(cfg, b, k.next, depth + 1).Fail?
    ensures ReadFields(cfg, b, p, count, depth, acc, 0).Fail?
  {
    hide ReadNode;
  }

  lemma ReadPairsFails(cfg: Config, b: Bytes, p: nat, count: nat, depth: nat, acc: map<Int64, Value>)
    requires p <= |b| && count > 0
    requires var k := ReadNode(cfg, b, p, depth + 1); k.Fail? || ReadNode(cfg, b, k.next, depth + 1).Fail?
    ensures ReadPairs(cfg, b, p, count, depth, acc, 0).Fail?
  {
    hide ReadNode;
  }

  lemma {:induction false} Refuses(cfg: Config, b: Bytes, p: nat, n: Node, depth: nat)
    requires Sized(n) && At(b, p, Serialize(n))
    ensures !Fits(cfg, n, depth) ==> ReadNode(cfg, b, p, depth).Fail?
    decreases n, 1
  {
    hide At, ReadNode, ReadArray, ReadMap, ReadElems, ReadFields, ReadPairs, ArrayHeader, MapHeader, ElemBytes, FieldBytes,
         PairBytes, IntBytes, StrBytes, BinHeader, U64;
    if depth > MAX_DEPTH {
      TooDeep(cfg, b, p, depth);
    } else if n.Array? {
      var q := p + |ArrayHeader(|n.elems|)|;
      AtConcat(b, p, ArrayHeader(|n.elems|), ElemBytes(n.elems, 0));
      ReadArrayHeader(cfg, b, p, |n.elems|, depth);
      RefusesArray(cfg, b, q, n.elems, depth);
    } else if n.Object? {
      var q := p + |MapHeader(|n.fields|)|;
      AtConcat(b, p, MapHeader(|n.fields|), FieldBytes(n.fields, 0));
      ReadMapHeader(cfg, b, p, |n.fields|, depth);
      RefusesObject(cfg, b, q, n.fields, depth);
    } else if n.IntMap? {
      var q := p + |MapHeader(|n.pairs|)|;
      AtConcat(b, p, MapHeader(|n.pairs|), PairBytes(n.pairs, 0));
      ReadMapHeader(cfg, b, p, |n.pairs|, depth);
      RefusesIntMap(cfg, b, q, n.pairs, depth);
    }
  }

  // ---- Containers: too many items, or one among them that does not fit ----

  lemma {:induction false} RefusesArray(cfg: Config, b: Bytes, p: nat, xs: seq<Node>, depth: nat)
    requires At(b, p, ElemBytes(xs, 0)) && forall i :: 0 <= i < |xs| ==> Sized(xs[i])
    ensures |xs| > cfg.maxElements || (exists i :: 0 <= i < |xs| && !Fits(cfg, xs[i], depth + 1)) ==>
              ReadArray(cfg, b, p, |xs|, depth).Fail?
    decreases xs, |xs| + 1
  {
    hide At, ReadArray, ReadElems, Fits, Sized, ElemBytes;
    if |xs| > cfg.maxElements {
      AtInside(b, p, ElemBytes(xs, 0));
      TooMany(cfg, b, p, |xs|, depth);
    } else {
      AtInside(b, p, ElemBytes(xs, 0));
      ReadArrayBody(cfg, b, p, |xs|, depth);
      RefusesElems(cfg, b, p, xs, 0, depth, []);
    }
  }

  lemma AtInside(b: Bytes, p: nat, s: Bytes)
    requires At(b, p, s)
    ensures p <= |b| && (s != [] ==> p < |b|)
  {
  }

  lemma {:induction false} RefusesElems(cfg: Config, b: Bytes, p: nat, xs: seq<Node>, k: nat, depth: nat, acc: seq<Value>)
    requires k <= |xs| && At(b, p, ElemBytes(xs, k)) && forall i :: 0 <= i < |xs| ==> Sized(xs[i])
    ensures (exists i :: k <= i < |xs| && !Fits(cfg, xs[i], depth + 1)) ==> ReadElems(cfg, b, p, |xs| - k, depth, acc, 0).Fail?
    decreases xs, |xs| - k
  {
    hide At, Fits, Sized, ReadNode, ReadElems, Serialize, Wire;
    if k < |xs| {
      AtConcat(b, p, Serialize(xs[k]), ElemBytes(xs, k + 1));
      AtInside(b, p, ElemBytes(xs, k));
      if Fits(cfg, xs[k], depth + 1) {
        ReadUndoesSerialize(cfg, b, p, xs[k], depth + 1);
        var next := p + |Serialize(xs[k])|;
        ReadElemsStep(cfg, b, p, |xs| - k, depth, acc, Wire(xs[k]), next);
        RefusesElems(cfg, b, next, xs, k + 1, depth, acc + [Wire(xs[k])]);
      } else {
        Refuses(cfg, b, p, xs[k], depth + 1);
        ReadElemsFails(cfg, b, p, |xs| - k, depth, acc);
      }
    }
  }

  lemma {:induction false} RefusesObject(cfg: Config, b: Bytes, p: nat, fs: seq<Field>, depth: nat)
    requires At(b, p, FieldBytes(fs, 0)) && forall i :: 0 <= i < |fs| ==> |fs[i].key| < TWO_32 && Sized(fs[i].val)
    ensures |fs| > cfg.maxElements || (exists i :: 0 <= i < |fs| && !Fits(cfg, fs[i].val, depth + 1)) ==>
              ReadMap(cfg, b, p, |fs|, depth).Fail?
    decreases fs, |fs| + 1
  {
    hide At, ReadMap, ReadFields, Fits, Sized, FieldBytes, StrKeyTag, IntKeyTag;
    AtInside(b, p, FieldBytes(fs, 0));
    if |fs| > cfg.maxElements {
      TooMany(cfg, b, p, |fs|, depth);
    } else if fs != [] {
      FirstKeyIsString(cfg, b, p, fs);
      ReadMapBody(cfg, b, p, |fs|, depth);
      RefusesFields(cfg, b, p, fs, 0, depth, map[]);
    }
  }

  lemma FirstKeyIsString(cfg: Config, b: Bytes, p: nat, fs: seq<Field>)
    requires fs != [] && At(b, p, FieldBytes(fs, 0)) && |fs[0].key| < TWO_32
    ensures p < |b| && StrKeyTag(b[p]) && !IntKeyTag(b[p])
  {
    hide At, ReadNode, Serialize, StrBytes, StrKeyTag, IntKeyTag;
    AtConcat(b, p, StrBytes(fs[0].key) + Serialize(fs[0].val), FieldBytes(fs, 1));
    AtConcat(b, p, StrBytes(fs[0].key), Serialize(fs[0].val));
    ReadStrBytes(cfg, b, p, fs[0].key, 0);
  }

  lemma {:induction false} RefusesFields(cfg: Config, b: Bytes, p: nat, fs: seq<Field>, k: nat, depth: nat, acc: map<Bytes, Value>)
    requires k <= |fs| && At(b, p, FieldBytes(fs, k))
    requires forall i :: 0 <= i < |fs| ==> |fs[i].key| < TWO_32 && Sized(fs[i].val)
    ensures (exists i :: k <= i < |fs| && !Fits(cfg, fs[i].val, depth + 1)) ==> ReadFields(cfg, b, p, |fs| - k, depth, acc, 0).Fail?
    decreases fs, |fs| - k
  {
    hide At, Fits, Sized, ReadNode, ReadFields, Serialize, StrBytes, Wire, StrKeyTag, IntKeyTag;
    if k < |fs| {
      var key, val := StrBytes(fs[k].key), Serialize(fs[k].val);
      AtInside(b, p, FieldBytes(fs, k));
      AtConcat(b, p, key + val, FieldBytes(fs, k + 1));
      AtConcat(b, p, key, val);
      if depth + 1 > MAX_DEPTH {
        TooDeep(cfg, b, p, depth + 1);
        ReadFieldsFails(cfg, b, p, |fs| - k, depth, acc);
      } else {
        ReadStrBytes(cfg, b, p, fs[k].key, depth + 1);
        if Fits(cfg, fs[k].val, depth + 1) {
          ReadUndoesSerialize(cfg, b, p + |key|, fs[k].val, depth + 1);
          ReadFieldsStep(cfg, b, p, |fs| - k, depth, acc, fs[k].key, p + |key|, Wire(fs[k].val), p + |key + val|);
          RefusesFields(cfg, b, p + |key + val|, fs, k + 1, depth, acc[fs[k].key := Wire(fs[k].val)]);
        } else {
          Refuses(cfg, b, p + |key|, fs[k].val, depth + 1);
          ReadFieldsFails(cfg, b, p, |fs| - k, depth, acc);
        }
      }
    }
  }

  lemma {:induction false} RefusesIntMap(cfg: Config, b: Bytes, p: nat, ps: seq<Pair>, depth: nat)
    requires At(b, p, PairBytes(ps, 0)) && forall i :: 0 <= i < |ps| ==> Sized(ps[i].ival)
    ensures |ps| > cfg.maxElements || (exists i :: 0 <= i < |ps| && !Fits(cfg, ps[i].ival, depth + 1)) ==>
              ReadMap(cfg, b, p, |ps|, depth).Fail?
    decreases ps, |ps| + 1
  {
    hide At, ReadMap, ReadPairs, Fits, Sized, PairBytes, StrKeyTag, IntKeyTag;
    AtInside(b, p, PairBytes(ps, 0));
    if |ps| > cfg.maxElements {
      TooMany(cfg, b, p, |ps|, depth);
    } else if ps != [] {
      FirstKeyIsInt(cfg, b, p, ps);
      ReadMapBody(cfg, b, p, |ps|, depth);
      RefusesPairs(cfg, b, p, ps, 0, depth, map[]);
    }
  }

  lemma FirstKeyIsInt(cfg: Config, b: Bytes, p: nat, ps: seq<Pair>)
    requires ps != [] && At(b, p, PairBytes(ps, 0))
    ensures p < |b| && IntKeyTag(b[p])
  {
    hide At, ReadNode, Serialize, IntBytes, IntKeyTag;
    AtConcat(b, p, IntBytes(ps[0].ikey) + Serialize(ps[0].ival), PairBytes(ps, 1));
    AtConcat(b, p, IntBytes(ps[0].ikey), Serialize(ps[0].ival));
    ReadIntBytes(cfg, b, p, ps[0].ikey, 0);
  }

  lemma {:induction false} RefusesPairs(cfg: Config, b: Bytes, p: nat, ps: seq<Pair>, k: nat, depth: nat, acc: map<Int64, Value>)
    requires k <= |ps| && At(b, p, PairBytes(ps, k)) && forall i :: 0 <= i < |ps| ==> Sized(ps[i].ival)
    ensures (exists i :: k <= i < |ps| && !Fits(cfg, ps[i].ival, depth + 1)) ==> ReadPairs(cfg, b, p, |ps| - k, depth, acc, 0).Fail?
    decreases ps, |ps| - k
  {
    hide At, Fits, Sized, ReadNode, ReadPairs, Serialize, IntBytes, Wire, IntKeyTag;
    if k < |ps| {
      assert ps decreases to ps[k];
      var key, val := IntBytes(ps[k].ikey), Serialize(ps[k].ival);
      AtInside(b, p, PairBytes(ps, k));
      AtConcat(b, p, key + val, PairBytes(ps, k + 1));
      AtConcat(b, p, key, val);
      if depth + 1 > MAX_DEPTH {
        TooDeep(cfg, b, p, depth + 1);
        ReadPairsFails(cfg, b, p, |ps| - k, depth, acc);
      } else {
        ReadIntBytes(cfg, b, p, ps[k].ikey, depth + 1);
        if Fits(cfg, ps[k].ival, depth + 1) {
          ReadUndoesSerialize(cfg, b, p + |key|, ps[k].ival, depth + 1);
          ReadPairsStep(cfg, b, p, |ps| - k, depth, acc, ps[k].ikey, p + |key|, Wire(ps[k].ival), p + |key + val|);
          RefusesPairs(cfg, b, p + |key + val|, ps, k + 1, depth, acc[ps[k].ikey := Wire(ps[k].ival)]);
        } else {
          Refuses(cfg, b, p + |key|, ps[k].ival, depth + 1);
          ReadPairsFails(cfg, b, p, |ps| - k, depth, acc);
        }
      }
    }
  }

  /** A tree whose sizes fit their headers is parsed back if it is within the depth and element limits,
      and refused if it is not. */
  lemma ParsesExactly(cfg: Config, n: Node)
    requires Sized(n)
    ensures Parse(cfg, Serialize(n)) == if Fits(cfg, n, 0) then Some(Wire(n)) else None
  {
    hide Fits, Sized, Wire, Serialize;
    var b := Serialize(n);
    assert b[0..|b|] == b;
    if Fits(cfg, n, 0) {
      ParseUndoesSerialize(cfg, n);
    } else {
      Refuses(cfg, b, 0, n, 0);
    }
  }
}
