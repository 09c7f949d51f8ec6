/** Byte strings, and what it means for one to stand at a position of another. */
module ByteStrings {
  type Byte = b: int | 0 <= b < 256
  type Bytes = seq<Byte>

  datatype Option<+T> = None | Some(value: T)

  /** `s` stands in `t` at position `p`. */
  predicate At(t: Bytes, p: nat, s: Bytes): (r: bool)
    ensures r ==> p + |s| <= |t|
  {
    p + |s| <= |t| && t[p..p + |s|] == s
  }

  /** A concatenation stands somewhere exactly when its two parts stand there one after the other. */
  lemma AtConcat(t: Bytes, p: nat, a: Bytes, b: Bytes)
    ensures At(t, p, a + b) <==> At(t, p, a) && At(t, p + |a|, b)
  {
    if At(t, p, a + b) {
      assert t[p..p + |a|] == (a + b)[..|a|];
      assert t[p + |a|..p + |a| + |b|] == (a + b)[|a|..];
    }
    if At(t, p, a) && At(t, p + |a|, b) {
      assert t[p..p + |a + b|] == t[p..p + |a|] + t[p + |a|..p + |a| + |b|];
    }
  }

  /** The bytes of a string that stands somewhere. */
  lemma AtByte(t: Bytes, p: nat, s: Bytes, i: nat)
    requires At(t, p, s) && i < |s|
    ensures t[p + i] == s[i]
  {
    assert t[p..p + |s|][i] == t[p + i];
  }

  lemma NotAt(t: Bytes, p: nat, s: Bytes)
    requires p < |t| && s != [] && t[p] != s[0]
    ensures !At(t, p, s)
  {
    if p + |s| <= |t| {
      assert t[p..p + |s|][0] == t[p];
    }
  }
}
