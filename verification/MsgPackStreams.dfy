/** The writer and the reader as the code runs them: one appends to a buffer, the other moves a
    position, and both are proved to do what the functions of MsgPackCodec say. */
module MsgPackStreams {
  import opened ByteStrings
  import opened DataNodes
  import Codec = MsgPackCodec

  class Writer {
    var out: Bytes

    constructor ()
      ensures out == []
    {
      out := [];
    }

    method WriteU8(v: int)
      modifies this
      ensures out == old(out) + Codec.U8(v)
    {
      out := out + [v % 256];
    }

    method WriteU16(v: int)
      modifies this
      ensures out == old(out) + Codec.U16(v)
    {
      out := out + [v / 256 % 256];
      out := out + [v % 256];
    }

    method WriteU32(v: int)
      modifies this
      ensures out == old(out) + Codec.U32(v)
    {
      out := out + [v / 0x100_0000 % 256];
      out := out + [v / 0x1_0000 % 256];
      out := out + [v / 0x100 % 256];
      out := out + [v % 256];
      BigEndian(v);
    }

    lemma BigEndian(v: int)
      ensures Codec.U32(v) == [v / 0x100_0000 % 256, v / 0x1_0000 % 256, v / 0x100 % 256, v % 256]
    {
      assert v / 0x1_0000 / 256 == v / 0x100_0000;
    }

    method WriteU64(v: int)
      modifies this
      ensures out == old(out) + Codec.U64(v)
    {
      hide Codec.U32;
      WriteU32(v / Codec.TWO_32);
      WriteU32(v);
    }

    method WriteStr(s: Bytes)
      modifies this
      ensures out == old(out) + Codec.StrBytes(s)
    {
      hide Codec.U8, Codec.U16, Codec.U32;
      var len := |s|;
      if len <= 31 {
        out := out + [0xa0 + len];
      } else if len <= 0xff {
        out := out + [0xd9];
        WriteU8(len);
      } else if len <= 0xffff {
        out := out + [0xda];
        WriteU16(len);
      } else {
        out := out + [0xdb];
        WriteU32(len);
      }
      out := out + s;
    }

    method WriteInt(v: Int64)
      modifies this
      ensures out == old(out) + Codec.IntBytes(v)
    {
      hide Codec.U8, Codec.U16, Codec.U32, Codec.U64;
      if v >= 0 {
        if v <= 0x7f {
          WriteU8(v);
        } else if v <= 0xff {
          out := out + [0xcc];
          WriteU8(v);
        } else if v <= 0xffff {
          out := out + [0xcd];
          WriteU16(v);
        } else if v <= 0xffff_ffff {
          out := out + [0xce];
          WriteU32(v);
        } else {
          out := out + [0xcf];
          WriteU64(v);
        }
      } else {
        if v >= -32 {
          WriteU8(v);
        } else if v >= -128 {
          out := out + [0xd0];
          WriteU8(v);
        } else if v >= -32768 {
          out := out + [0xd1];
          WriteU16(v);
        } else if v >= -0x8000_0000 {
          out := out + [0xd2];
          WriteU32(v);
        } else {
          out := out + [0xd3];
          WriteU64(v);
        }
      }
    }

    method WriteMapHeader(count: nat)
      modifies this
      ensures out == old(out) + Codec.MapHeader(count)
    {
      hide Codec.U16, Codec.U32;
      if count <= 15 {
        out := out + [0x80 + count];
      } else if count <= 0xffff {
        out := out + [0xde];
        WriteU16(count);
      } else {
        out := out + [0xdf];
        WriteU32(count);
      }
    }

    method WriteArrayHeader(count: nat)
      modifies this
      ensures out == old(out) + Codec.ArrayHeader(count)
    {
      hide Codec.U16, Codec.U32;
      if count <= 15 {
        out := out + [0x90 + count];
      } else if count <= 0xffff {
        out := out + [0xdc];
        WriteU16(count);
      } else {
        out := out + [0xdd];
        WriteU32(count);
      }
    }

    method WriteBinary(s: Bytes)
      modifies this
      ensures out == old(out) + (Codec.BinHeader(|s|) + s)
    {
      hide Codec.U8, Codec.U16, Codec.U32;
      var len := |s|;
      if len <= 0xff {
        out := out + [0xc4];
        WriteU8(len);
      } else if len <= 0xffff {
        out := out + [0xc5];
        WriteU16(len);
      } else {
        out := out + [0xc6];
        WriteU32(len);
      }
      out := out + s;
    }

    /** Appends exactly the bytes of the tree. */
    method SerializeNode(n: Node)
      modifies this
      ensures out == old(out) + Codec.Serialize(n)
      decreases n, 0
    {
      hide Codec.IntBytes, Codec.StrBytes, Codec.U64, Codec.ArrayHeader, Codec.MapHeader, Codec.BinHeader,
           Codec.ElemBytes, Codec.FieldBytes, Codec.PairBytes;
      match n
      case Null => out := out + [0xc0];
      case Bool(b) => out := out + [if b then 0xc3 else 0xc2];
      case Int(i) => WriteInt(i);
      case Float(d) =>
        out := out + [0xcb];
        WriteU64(d);
      case Str(s) => WriteStr(s);
      case Array(xs) =>
        WriteArrayHeader(|xs|);
        SerializeElems(xs);
      case Object(fs) =>
        WriteMapHeader(|fs|);
        SerializeFields(fs);
      case IntMap(ps) =>
        WriteMapHeader(|ps|);
        SerializePairs(ps);
      case Binary(s) => WriteBinary(s);
    }

    method SerializeElems(xs: seq<Node>)
      modifies this
      ensures out == old(out) + Codec.ElemBytes(xs, 0)
      decreases xs, |xs| + 1
    {
      hide Codec.Serialize;
      var i := 0;
      while i < |xs|
        invariant 0 <= i <= |xs|
        invariant out + Codec.ElemBytes(xs, i) == old(out) + Codec.ElemBytes(xs, 0)
      {
        SerializeNode(xs[i]);
        i := i + 1;
      }
    }

    method SerializeFields(fs: seq<Field>)
      modifies this
      ensures out == old(out) + Codec.FieldBytes(fs, 0)
      decreases fs, |fs| + 1
    {
      hide Codec.Serialize, Codec.StrBytes;
      var i := 0;
      while i < |fs|
        invariant 0 <= i <= |fs|
        invariant out + Codec.FieldBytes(fs, i) == old(out) + Codec.FieldBytes(fs, 0)
      {
        WriteStr(fs[i].key);
        SerializeNode(fs[i].val);
        i := i + 1;
      }
    }

    method SerializePairs(ps: seq<Pair>)
      modifies this
      ensures out == old(out) + Codec.PairBytes(ps, 0)
      decreases ps, |ps| + 1
    {
      hide Codec.Serialize, Codec.IntBytes;
      var i := 0;
      while i < |ps|
        invariant 0 <= i <= |ps|
        invariant out + Codec.PairBytes(ps, i) == old(out) + Codec.PairBytes(ps, 0)
      {
        assert ps decreases to ps[i];
        WriteInt(ps[i].ikey);
        SerializeNode(ps[i].ival);
        i := i + 1;
      }
    }
  }

  /** What a reading method leaves behind agrees with what the function gives. */
  ghost predicate Agrees(spec: Codec.Read, r: Option<Value>, pos: nat) {
    if spec.Fail? then r.None? else r == Some(spec.value) && pos == spec.next
  }

  class Reader {
    const data: Bytes
    const cfg: Codec.Config
    var pos: nat

    constructor (data: Bytes, cfg: Codec.Config)
      ensures this.data == data && this.cfg == cfg && pos == 0
    {
      this.data := data;
      this.cfg := cfg;
      pos := 0;
    }

    predicate Has(n: nat)
      reads this
    {
      pos + n <= |data|
    }

    method ReadU8() returns (v: nat)
      requires Has(1)
      modifies this
      ensures v == data[old(pos)] && pos == old(pos) + 1
    {
      v := data[pos];
      pos := pos + 1;
    }

    method ReadU16() returns (v: nat)
      requires Has(2)
      modifies this
      ensures v == Codec.Get16(data, old(pos)) && pos == old(pos) + 2
    {
      v := data[pos] as int * 256 + data[pos + 1];
      pos := pos + 2;
    }

    method ReadU32() returns (v: nat)
      requires Has(4)
      modifies this
      ensures v == Codec.Get32(data, old(pos)) && pos == old(pos) + 4
    {
      v := data[pos] as int * 0x100_0000 + data[pos + 1] as int * 0x1_0000 + data[pos + 2] as int * 0x100 + data[pos + 3];
      pos := pos + 4;
    }

    method ReadU64() returns (v: nat)
      requires Has(8)
      modifies this
      ensures v == Codec.Get64(data, old(pos)) && pos == old(pos) + 8
    {
      var hi := ReadU32();
      var lo := ReadU32();
      v := hi * Codec.TWO_32 + lo;
    }

    method ReadBytes(n: nat) returns (s: Bytes)
      requires Has(n)
      modifies this
      ensures s == data[old(pos)..old(pos) + n] && pos == old(pos) + n
    {
      s := data[pos..pos + n];
      pos := pos + n;
    }

    method ReadStr(len: nat) returns (r: Option<Value>)
      modifies this
      ensures Agrees(Codec.ReadStr(data, old(pos), len), r, pos)
    {
      if !Has(len) { return None; }
      var s := ReadBytes(len);
      r := Some(VStr(s));
    }

    method ReadBin(len: nat) returns (r: Option<Value>)
      modifies this
      ensures Agrees(Codec.ReadBin(data, old(pos), len), r, pos)
    {
      if !Has(len) { return None; }
      var s := ReadBytes(len);
      r := Some(VBinary(s));
    }

    /** Reads one node at the current position. */
    method ReadNode(depth: nat) returns (r: Option<Value>)
      requires pos <= |data|
      modifies this
      ensures Agrees(Codec.ReadNode(cfg, data, old(pos), depth), r, pos)
      decreases |data| - pos, 1
    {
      hide Codec.ReadMap, Codec.ReadArray, Codec.ReadFixed, Codec.ReadSized, Codec.ReadStr;
      if depth > Codec.MAX_DEPTH || !Has(1) { return None; }
      var b := ReadU8();
      if b <= 0x7f { return Some(VInt(b)); }
      if b >= 0xe0 { return Some(VInt(b as int - 256)); }
      if b <= 0x8f { r := ReadMap(b - 0x80, depth); return; }
      if b <= 0x9f { r := ReadArray(b - 0x90, depth); return; }
      if b <= 0xbf { r := ReadStr(b - 0xa0); return; }
      if b <= 0xd3 { r := ReadFixed(b); return; }
      r := ReadSized(b, depth);
    }

    method ReadFixed(b: nat) returns (r: Option<Value>)
      requires pos <= |data| && 0xc0 <= b <= 0xd3
      modifies this
      ensures Agrees(Codec.ReadFixed(cfg, data, old(pos), b), r, pos)
    {
      hide Codec.Get16, Codec.Get32, Codec.Get64;
      var need := if b == 0xc4 || b == 0xcc || b == 0xd0 then 1
                  else if b == 0xc5 || b == 0xcd || b == 0xd1 then 2
                  else if b == 0xc6 || b == 0xca || b == 0xce || b == 0xd2 then 4
                  else if b == 0xcb || b == 0xcf || b == 0xd3 then 8
                  else 0;
      if !Has(need) { return None; }
      match b
      case 0xc0 => return Some(VNull);
      case 0xc2 => return Some(VBool(false));
      case 0xc3 => return Some(VBool(true));
      case 0xc4 => var len := ReadU8(); r := ReadBin(len);
      case 0xc5 => var len := ReadU16(); r := ReadBin(len);
      case 0xc6 => var len := ReadU32(); r := ReadBin(len);
      case 0xca => var f := ReadU32(); r := Some(VFloat(cfg.widen(f)));
      case 0xcb => var d := ReadU64(); r := Some(VFloat(d));
      case 0xcc => var v := ReadU8(); r := Some(VInt(v));
      case 0xcd => var v := ReadU16(); r := Some(VInt(v));
      case 0xce => var v := ReadU32(); r := Some(VInt(v));
      case 0xcf => var v := ReadU64(); r := Some(VInt(Codec.Signed(v, Codec.TWO_64 / 2)));
      case 0xd0 => var v := ReadU8(); r := Some(VInt(Codec.Signed(v, 128)));
      case 0xd1 => var v := ReadU16(); r := Some(VInt(Codec.Signed(v, Codec.TWO_16 / 2)));
      case 0xd2 => var v := ReadU32(); r := Some(VInt(Codec.Signed(v, Codec.TWO_32 / 2)));
      case 0xd3 => var v := ReadU64(); r := Some(VInt(Codec.Signed(v, Codec.TWO_64 / 2)));
      case _ => return None;
    }

    method ReadSized(b: nat, depth: nat) returns (r: Option<Value>)
      requires pos <= |data| && 0xd4 <= b
      modifies this
      ensures Agrees(Codec.ReadSized(cfg, data, old(pos), b, depth), r, pos)
      decreases |data| - pos, 4
    {
      hide Codec.ReadMap, Codec.ReadArray, Codec.ReadStr, Codec.Get16, Codec.Get32;
      var need := if b == 0xd9 then 1 else if b == 0xda || b == 0xdc || b == 0xde then 2 else 4;
      if !Has(need) || b < 0xd9 || b > 0xdf { return None; }
      match b
      case 0xd9 => var len := ReadU8(); r := ReadStr(len);
      case 0xda => var len := ReadU16(); r := ReadStr(len);
      case 0xdb => var len := ReadU32(); r := ReadStr(len);
      case 0xdc => var count := ReadU16(); r := ReadArray(count, depth);
      case 0xdd => var count := ReadU32(); r := ReadArray(count, depth);
      case 0xde => var count := ReadU16(); r := ReadMap(count, depth);
      case _ => var count := ReadU32(); r := ReadMap(count, depth);
    }

    method ReadArray(count: nat, depth: nat) returns (r: Option<Value>)
      requires pos <= |data|
      modifies this
      ensures Agrees(Codec.ReadArray(cfg, data, old(pos), count, depth), r, pos)
      decreases |data| - pos, 3
    {
      hide Codec.ReadNode;
      if count > cfg.maxElements { return None; }
      var arr: seq<Value>, i := [], 0;
      ghost var narrow: nat := 0;
      while i < count
        invariant i <= count && old(pos) <= pos <= |data|
        invariant Codec.ReadElems(cfg, data, pos, count - i, depth, arr, narrow)
               == Codec.ReadElems(cfg, data, old(pos), count, depth, [], 0)
      {
        ghost var spec := Codec.ReadNode(cfg, data, pos, depth + 1);
        var elem := ReadNode(depth + 1);
        if elem.None? { return None; }
        arr, i, narrow := arr + [elem.value], i + 1, narrow + spec.narrow;
      }
      r := Some(VArray(arr));
    }

    method ReadMap(count: nat, depth: nat) returns (r: Option<Value>)
      requires pos <= |data|
      modifies this
      ensures Agrees(Codec.ReadMap(cfg, data, old(pos), count, depth), r, pos)
      decreases |data| - pos, 3
    {
      hide Codec.ReadPairs, Codec.ReadFields;
      if count == 0 { return Some(VObject(map[])); }
      if count > cfg.maxElements || !Has(1) { return None; }
      var peek := data[pos];
      if Codec.IntKeyTag(peek) {
        r := ReadPairs(count, depth);
      } else if Codec.StrKeyTag(peek) {
        r := ReadFields(count, depth);
      } else {
        return None;
      }
    }

    method ReadPairs(count: nat, depth: nat) returns (r: Option<Value>)
      requires pos <= |data|
      modifies this
      ensures Agrees(Codec.ReadPairs(cfg, data, old(pos), count, depth, map[], 0), r, pos)
      decreases |data| - pos, 2
    {
      hide Codec.ReadNode;
      var m: map<Int64, Value>, i := map[], 0;
      ghost var narrow: nat := 0;
      while i < count
        invariant i <= count && old(pos) <= pos <= |data|
        invariant Codec.ReadPairs(cfg, data, pos, count - i, depth, m, narrow)
               == Codec.ReadPairs(cfg, data, old(pos), count, depth, map[], 0)
      {
        var key := ReadNode(depth + 1);
        if key.None? || !key.value.VInt? { return None; }
        ghost var spec := Codec.ReadNode(cfg, data, pos, depth + 1);
        var val := ReadNode(depth + 1);
        if val.None? { return None; }
        m, i, narrow := m[key.value.i := val.value], i + 1, narrow + spec.narrow;
      }
      r := Some(VIntMap(m));
    }

    method ReadFields(count: nat, depth: nat) returns (r: Option<Value>)
      requires pos <= |data|
      modifies this
      ensures Agrees(Codec.ReadFields(cfg, data, old(pos), count, depth, map[], 0), r, pos)
      decreases |data| - pos, 2
    {
      hide Codec.ReadNode;
      var m: map<Bytes, Value>, i := map[], 0;
      ghost var narrow: nat := 0;
      while i < count
        invariant i <= count && old(pos) <= pos <= |data|
        invariant Codec.ReadFields(cfg, data, pos, count - i, depth, m, narrow)
               == Codec.ReadFields(cfg, data, old(pos), count, depth, map[], 0)
      {
        var key := ReadNode(depth + 1);
        if key.None? || !key.value.VStr? { return None; }
        ghost var spec := Codec.ReadNode(cfg, data, pos, depth + 1);
        var val := ReadNode(depth + 1);
        if val.None? { return None; }
        m, i, narrow := m[key.value.s := val.value], i + 1, narrow + spec.narrow;
      }
      r := Some(VObject(m));
    }
  }

  /** The whole input has to be one node. */
  method MsgPackParse(cfg: Codec.Config, data: Bytes) returns (r: Option<Value>)
    ensures r == Codec.Parse(cfg, data)
  {
    hide Codec.ReadNode;
    if |data| == 0 {
      Nothing(cfg, data);
      return None;
    }
    var reader := new Reader(data, cfg);
    r := reader.ReadNode(0);
    if r.Some? && reader.pos != |data| { return None; }
  }

  lemma Nothing(cfg: Codec.Config, data: Bytes)
    requires data == []
    ensures Codec.ReadNode(cfg, data, 0, 0).Fail?
  {
  }

  method MsgPackSerialize(n: Node) returns (result: Bytes)
    ensures result == Codec.Serialize(n)
  {
    hide Codec.Serialize;
    var w := new Writer();
    w.SerializeNode(n);
    result := w.out;
  }
}
