/** The DataNode tree that the JSON, HJSON and MessagePack code all work on. */
module DataNodes {
  import opened ByteStrings

  type Int64 = i: int | -0x8000_0000_0000_0000 <= i < 0x8000_0000_0000_0000

  /** The bit pattern of a double. */
  type Double = d: int | 0 <= d < 0x1_0000_0000_0000_0000

  /** A tree as it lies in memory. A hash map is given as the sequence its iterator runs
      through, so a statement about every Node is a statement about every iteration order. */
  datatype Node =
    | Null
    | Bool(b: bool)
    | Int(i: Int64)
    | Float(d: Double)
    | Str(s: Bytes)
    | Array(elems: seq<Node>)
    | Object(fields: seq<Field>)
    | IntMap(pairs: seq<Pair>)
    | Binary(bin: Bytes)

  datatype Field = Field(key: Bytes, val: Node)
  datatype Pair = Pair(ikey: Int64, ival: Node)

  /** What a tree holds, with no iteration order. */
  datatype Value =
    | VNull
    | VBool(b: bool)
    | VInt(i: Int64)
    | VFloat(d: Double)
    | VStr(s: Bytes)
    | VArray(elems: seq<Value>)
    | VObject(fields: map<Bytes, Value>)
    | VIntMap(pairs: map<Int64, Value>)
    | VBinary(bin: Bytes)

  function Content(n: Node): Value
    decreases n, 0
  {
    match n
    case Null => VNull
    case Bool(b) => VBool(b)
    case Int(i) => VInt(i)
    case Float(d) => VFloat(d)
    case Str(s) => VStr(s)
    case Array(xs) => VArray(ElemContents(xs, |xs|))
    case Object(fs) => VObject(FieldContents(fs, |fs|))
    case IntMap(ps) => VIntMap(PairContents(ps, |ps|))
    case Binary(s) => VBinary(s)
  }

  function ElemContents(xs: seq<Node>, k: nat): seq<Value>
    requires k <= |xs|
    decreases xs, k
  {
    if k == 0 then [] else ElemContents(xs, k - 1) + [Content(xs[k - 1])]
  }

  function FieldContents(fs: seq<Field>, k: nat): map<Bytes, Value>
    requires k <= |fs|
    decreases fs, k
  {
    if k == 0 then map[] else FieldContents(fs, k - 1)[fs[k - 1].key := Content(fs[k - 1].val)]
  }

  function PairContents(ps: seq<Pair>, k: nat): map<Int64, Value>
    requires k <= |ps|
    decreases ps, k
  {
    if k == 0 then map[]
    else
      assert ps decreases to ps[k - 1];
      PairContents(ps, k - 1)[ps[k - 1].ikey := Content(ps[k - 1].ival)]
  }

  /** A hash map holds each key once. */
  ghost predicate DistinctKeys(n: Node) {
    match n
    case Array(xs) => forall i :: 0 <= i < |xs| ==> DistinctKeys(xs[i])
    case Object(fs) =>
      && DistinctFields(fs)
      && forall i :: 0 <= i < |fs| ==> DistinctKeys(fs[i].val)
    case IntMap(ps) =>
      && DistinctPairs(ps)
      && forall i :: 0 <= i < |ps| ==> DistinctKeys(ps[i].ival)
    case _ => true
  }

  ghost predicate DistinctFields(fs: seq<Field>) {
    forall i, j :: 0 <= i < j < |fs| ==> fs[i].key != fs[j].key
  }

  ghost predicate DistinctPairs(ps: seq<Pair>) {
    forall i, j :: 0 <= i < j < |ps| ==> ps[i].ikey != ps[j].ikey
  }

  // ---- Contents of containers ----

  lemma {:induction false} ElemContentsAt(xs: seq<Node>, k: nat)
    requires k <= |xs|
    ensures |ElemContents(xs, k)| == k
    ensures forall i :: 0 <= i < k ==> ElemContents(xs, k)[i] == Content(xs[i])
  {
    hide Content;
    if k > 0 {
      ElemContentsAt(xs, k - 1);
    }
  }

  lemma {:induction false} FieldContentsAt(fs: seq<Field>, k: nat)
    requires k <= |fs| && DistinctFields(fs)
    ensures |FieldContents(fs, k)| == k
    ensures forall i :: 0 <= i < k ==> fs[i].key in FieldContents(fs, k) && FieldContents(fs, k)[fs[i].key] == Content(fs[i].val)
    ensures forall i :: k <= i < |fs| ==> fs[i].key !in FieldContents(fs, k)
  {
    hide Content;
    if k > 0 {
      FieldContentsAt(fs, k - 1);
    }
  }

  lemma {:induction false} PairContentsAt(ps: seq<Pair>, k: nat)
    requires k <= |ps| && DistinctPairs(ps)
    ensures |PairContents(ps, k)| == k
    ensures forall i :: 0 <= i < k ==> ps[i].ikey in PairContents(ps, k) && PairContents(ps, k)[ps[i].ikey] == Content(ps[i].ival)
    ensures forall i :: k <= i < |ps| ==> ps[i].ikey !in PairContents(ps, k)
  {
    hide Content;
    if k > 0 {
      PairContentsAt(ps, k - 1);
    }
  }
}
