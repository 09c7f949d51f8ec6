/** The scanners of the HJSON parser: one byte at a time, and 32 bytes at a time with a bit mask. */
module HjsonScanners {
  import opened ByteStrings
  import opened Ascii

  /** What a scanner stops at. */
  datatype Stop = NotSpace | QuoteOrSpecial(quote: Byte) | Newline | Exactly(target: Byte)

  predicate Hits(stop: Stop, c: Byte) {
    match stop
    case NotSpace => !IsSpace(c)
    case QuoteOrSpecial(q) => c == q || c == BACKSLASH || IsNewline(c)
    case Newline => IsNewline(c)
    case Exactly(x) => c == x
  }

  /** The first position from p on, short of end, that holds a stop byte; end if there is none. */
  function FirstHit(stop: Stop, t: Bytes, p: nat, end: nat): (r: nat)
    requires p <= end <= |t|
    ensures p <= r <= end
    decreases end - p
  {
    if p == end || Hits(stop, t[p]) then p else FirstHit(stop, t, p + 1, end)
  }

  /** That position is the only one with nothing to stop at before it and a stop, or the end, at it. */
  lemma {:induction false} FirstHitIs(stop: Stop, t: Bytes, p: nat, end: nat, r: nat)
    requires p <= r <= end <= |t|
    requires forall i :: p <= i < r ==> !Hits(stop, t[i])
    requires r == end || Hits(stop, t[r])
    ensures FirstHit(stop, t, p, end) == r
    decreases r - p
  {
    hide Hits;
    if p < r {
      FirstHitIs(stop, t, p + 1, end, r);
    }
  }

  method ScanScalar(stop: Stop, buf: Bytes, p: nat, end: nat) returns (r: nat)
    requires p <= end <= |buf|
    ensures r == FirstHit(stop, buf, p, end)
  {
    hide Hits;
    r := p;
    while r < end && !Hits(stop, buf[r])
      invariant p <= r <= end
      invariant FirstHit(stop, buf, p, end) == FirstHit(stop, buf, r, end)
    {
      r := r + 1;
    }
  }

  // ---- 32 bytes at a time ----

  const PADDING: nat := 64
  const LANES: nat := 32
  const ALL_LANES: nat := 0xffff_ffff

  /** Unaligned load of one vector. Its precondition is that the load stays inside the buffer. */
  function Load(buf: Bytes, at: nat): (v: Bytes)
    requires at + LANES <= |buf|
    ensures |v| == LANES
  {
    buf[at..at + LANES]
  }

  /** One bit for each lane, lane 0 lowest. */
  function MoveMask(lanes: seq<bool>): (mask: nat) {
    if lanes == [] then 0 else (if lanes[0] then 1 else 0) + 2 * MoveMask(lanes[1..])
  }

  /** Trailing zero bits. */
  function Ctz(mask: nat): (n: nat)
    requires mask > 0
  {
    if mask % 2 == 1 then 0 else 1 + Ctz(mask / 2)
  }

  function Compare(stop: Stop, v: Bytes): (lanes: seq<bool>)
    ensures |lanes| == |v|
  {
    seq(|v|, i requires 0 <= i < |v| => Hits(stop, v[i]))
  }

  /** The lowest set bit belongs to the first lane that is set, and no bit is set if no lane is. */
  lemma {:induction false} MaskFindsFirst(lanes: seq<bool>)
    ensures MoveMask(lanes) > 0 ==>
              var n := Ctz(MoveMask(lanes));
              n < |lanes| && lanes[n] && forall i :: 0 <= i < n ==> !lanes[i]
    ensures MoveMask(lanes) == 0 ==> forall i :: 0 <= i < |lanes| ==> !lanes[i]
  {
    if lanes != [] {
      var rest := lanes[1..];
      MaskFindsFirst(rest);
      assert forall i :: 0 < i < |lanes| ==> lanes[i] == rest[i - 1];
      assert MoveMask(lanes) / 2 == MoveMask(rest);
    }
  }

  function Inverted(lanes: seq<bool>): (r: seq<bool>)
    ensures |r| == |lanes|
  {
    seq(|lanes|, i requires 0 <= i < |lanes| => !lanes[i])
  }

  function TwoTo(n: nat): (r: nat)
    ensures r > 0
  {
    if n == 0 then 1 else 2 * TwoTo(n - 1)
  }

  /** Complementing the mask complements every lane. */
  lemma {:induction false} MaskComplement(lanes: seq<bool>)
    ensures MoveMask(lanes) + MoveMask(Inverted(lanes)) == TwoTo(|lanes|) - 1
  {
    if lanes != [] {
      assert Inverted(lanes)[1..] == Inverted(lanes[1..]);
      MaskComplement(lanes[1..]);
    }
  }

  lemma AllLanes()
    ensures TwoTo(LANES) == ALL_LANES + 1
  {
    assert TwoTo(4) == 16;
    assert TwoTo(8) == 256;
    assert TwoTo(12) == 0x1000;
    assert TwoTo(16) == 0x1_0000;
    assert TwoTo(20) == 0x10_0000;
    assert TwoTo(24) == 0x100_0000;
    assert TwoTo(28) == 0x1000_0000;
  }

  /** The same, said of the buffer the lanes were compared in. */
  lemma MaskFindsFirstAt(stop: Stop, buf: Bytes, at: nat, lanes: seq<bool>)
    requires |lanes| == LANES && at + LANES <= |buf|
    requires forall k :: 0 <= k < LANES ==> lanes[k] == Hits(stop, buf[at + k])
    ensures MoveMask(lanes) > 0 ==>
              var r := at + Ctz(MoveMask(lanes));
              r < at + LANES && Hits(stop, buf[r]) && forall j :: at <= j < r ==> !Hits(stop, buf[j])
    ensures MoveMask(lanes) == 0 ==> forall j :: at <= j < at + LANES ==> !Hits(stop, buf[j])
  {
    hide Hits, MoveMask, Ctz;
    MaskFindsFirst(lanes);
    var n := if MoveMask(lanes) > 0 then Ctz(MoveMask(lanes)) else LANES;
    forall j | at <= j < at + n ensures !Hits(stop, buf[j]) {
      var k := j - at;
      assert lanes[k] == Hits(stop, buf[at + k]);
    }
  }

  /** Three of the four AVX2 scanners: stop at the first set bit of the comparison mask. */
  method ScanVector(stop: Stop, buf: Bytes, p: nat, end: nat) returns (r: nat)
    requires p <= end && end + PADDING <= |buf|
    ensures r == FirstHit(stop, buf, p, end)
  {
    hide Hits, FirstHit, MoveMask, Ctz;
    var i := p;
    while i < end
      invariant p <= i
      invariant forall k :: p <= k < i && k < end ==> !Hits(stop, buf[k])
    {
      var v := Load(buf, i);
      var lanes := Compare(stop, v);
      var mask := MoveMask(lanes);
      MaskFindsFirstAt(stop, buf, i, lanes);
      if mask != 0 {
        var at := i + Ctz(mask);
        r := if at < end then at else end;
        FirstHitIs(stop, buf, p, end, r);
        return;
      }
      i := i + LANES;
    }
    r := end;
    FirstHitIs(stop, buf, p, end, end);
  }

  /** The whitespace scanner compares for whitespace, so it looks at the complement of its mask. */
  method SkipSpacesVector(buf: Bytes, p: nat, end: nat) returns (r: nat)
    requires p <= end && end + PADDING <= |buf|
    ensures r == FirstHit(NotSpace, buf, p, end)
  {
    hide FirstHit, MoveMask, Ctz, TwoTo, IsSpace;
    var i := p;
    while i < end
      invariant p <= i
      invariant forall k :: p <= k < i && k < end ==> !Hits(NotSpace, buf[k])
    {
      var v := Load(buf, i);
      var spaces := seq(LANES, k requires 0 <= k < LANES => IsSpace(v[k]));
      var mask := MoveMask(spaces);
      var stops := Inverted(spaces);
      MaskComplement(spaces);
      AllLanes();
      MaskFindsFirstAt(NotSpace, buf, i, stops);
      if mask != ALL_LANES {
        var at := i + Ctz(ALL_LANES - mask);
        r := if at < end then at else end;
        FirstHitIs(NotSpace, buf, p, end, r);
        return;
      }
      i := i + LANES;
    }
    r := end;
    FirstHitIs(NotSpace, buf, p, end, end);
  }

  /** The scanner the parser ends up calling, whichever was picked at start-up. */
  method Scan(vector: bool, stop: Stop, buf: Bytes, p: nat, end: nat) returns (r: nat)
    requires p <= end && end + PADDING <= |buf|
    ensures r == FirstHit(stop, buf, p, end)
  {
    if !vector {
      r := ScanScalar(stop, buf, p, end);
    } else if stop.NotSpace? {
      r := SkipSpacesVector(buf, p, end);
    } else {
      r := ScanVector(stop, buf, p, end);
    }
  }

  /** Padding does not change what a scan of the data finds. */
  lemma {:induction false} FirstHitPadded(stop: Stop, t: Bytes, pad: Bytes, p: nat)
    requires p <= |t|
    ensures FirstHit(stop, t + pad, p, |t|) == FirstHit(stop, t, p, |t|)
    decreases |t| - p
  {
    hide Hits;
    if p < |t| {
      FirstHitPadded(stop, t, pad, p + 1);
    }
  }
}
