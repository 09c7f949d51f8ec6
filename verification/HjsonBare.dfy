/** Values and keys without quotes: exactly where they end and what they are. */
module HjsonBare {
  import opened ByteStrings
  import opened DataNodes
  import opened Ascii
  import opened HjsonScanners
  import opened HjsonSyntax
  import opened HjsonTokens
  import Libc

  /** A text without the blanks and control bytes at its end. */
  function Trimmed(s: Bytes): (r: Bytes)
    ensures |r| <= |s| && r == s[..|r|]
  {
    if s != [] && s[|s| - 1] <= SPACE then Trimmed(s[..|s| - 1]) else s
  }

  lemma TrimMore(t: Bytes, start: nat, p: nat)
    requires start <= p < |t|
    ensures Trimmed(t[start..p + 1]) == if t[p] > SPACE then t[start..p + 1] else Trimmed(t[start..p])
  {
    assert t[start..p + 1][..p - start] == t[start..p];
  }

  /** A value from start on can end at k: at a line end, at the end of the text, or at a break if what
      stands before it is a keyword or a number. */
  predicate CanEnd(c: Libc.Calls, t: Bytes, start: nat, k: nat)
    requires start <= k <= |t|
  {
    k == |t| || IsNewline(t[k]) || (BreakAt(t, k) && KeywordOrNumber(c, Trimmed(t[start..k])).Some?)
  }

  /** What a value that ends at k is: nothing, a keyword or number, or else a string of its very bytes. */
  function Bare(c: Libc.Calls, t: Bytes, start: nat, k: nat): Parsed
    requires start <= k <= |t|
  {
    var w := Trimmed(t[start..k]);
    if w == [] then Bad
    else if KeywordOrNumber(c, w).Some? then Good(KeywordOrNumber(c, w).value, k)
    else Good(VStr(w), k)
  }

  lemma {:induction false} BareFrom(c: Libc.Calls, t: Bytes, start: nat, p: nat, end: nat, k: nat)
    requires start <= end <= p <= k <= |t| && t[start..end] == Trimmed(t[start..p])
    requires CanEnd(c, t, start, k) && forall i :: p <= i < k ==> !CanEnd(c, t, start, i)
    ensures UnquotedFrom(c, t, p, start, end) == Bare(c, t, start, k)
    decreases k - p
  {
    hide KeywordOrNumber, Trimmed, BreakAt;
    if p < k {
      assert !CanEnd(c, t, start, p);
      TrimMore(t, start, p);
      BareFrom(c, t, start, p + 1, if t[p] > SPACE then p + 1 else end, k);
    } else {
      NothingKnown(c);
    }
  }

  lemma NothingKnown(c: Libc.Calls)
    ensures KeywordOrNumber(c, []).None?
  {
  }

  /** A value that starts with a visible byte other than a quote or a punctuator ends at the first place
      it can, and is what it is up to there. */
  lemma BareExactly(c: Libc.Calls, t: Bytes, start: nat, k: nat)
    requires start < |t| && start <= k <= |t| && !IsPunctuator(t[start]) && t[start] > SPACE
    requires CanEnd(c, t, start, k) && forall i :: start <= i < k ==> !CanEnd(c, t, start, i)
    ensures Unquoted(c, t, start) == Bare(c, t, start, k)
  {
    hide KeywordOrNumber, UnquotedFrom, Trimmed, CanEnd;
    NoTrim(t, start);
    BareFrom(c, t, start, start, start, k);
  }

  lemma NoTrim(t: Bytes, start: nat)
    requires start <= |t|
    ensures t[start..start] == Trimmed(t[start..start])
  {
  }

  /** A control byte in front is not part of the value. */
  lemma ControlIsSkipped(c: Libc.Calls, t: Bytes, p: nat, start: nat, k: nat)
    requires start == p + 1 <= k <= |t| && 0 < t[p] < SPACE && VisibleNext(t, p)
    requires CanEnd(c, t, start, k) && forall i :: start <= i < k ==> !CanEnd(c, t, start, i)
    ensures Unquoted(c, t, p) == Bare(c, t, start, k)
  {
    hide KeywordOrNumber, UnquotedFrom, Trimmed, CanEnd, VisibleNext;
    NoTrim(t, start);
    BareFrom(c, t, start, start, start, k);
  }

  /** A line that starts with a visible byte other than a quote, a punctuator or a comment, and of which
      neither the whole nor any part up to a break is a keyword or a number, is the string of its bytes
      without the blanks at its end, wherever it stands before a line end or the end of the text. */
  lemma LineIsString(c: Libc.Calls, before: Bytes, w: Bytes, after: Bytes, depth: nat)
    requires w != [] && w[0] > SPACE && !IsPunctuator(w[0]) && !IsQuote(w[0]) && !CommentAt(w, 0)
    requires (forall i :: 0 <= i < |w| ==> !IsNewline(w[i])) && (after == [] || IsNewline(after[0])) && depth <= HjsonSyntax.MAX_DEPTH
    requires KeywordOrNumber(c, Trimmed(w)).None?
    requires forall i :: 0 <= i < |w| && BreakAt(w, i) ==> KeywordOrNumber(c, Trimmed(w[..i])).None?
    ensures var t := before + w + after;
            ParseValue(c, t, |before|, depth) == Good(VStr(Trimmed(w)), |before| + |w|)
  {
    hide KeywordOrNumber, Trimmed, Unquoted, SkipWs;
    var t, start := before + w + after, |before|;
    var k := start + |w|;
    assert t[start..k] == w && forall i :: 0 <= i < |w| ==> t[start + i] == w[i];
    SolidHere(t, start, w, after);
    SkipBlanks(t, start, start);
    forall i | start <= i < k
      ensures !CanEnd(c, t, start, i)
    {
      assert t[start..i] == w[..i - start];
      SameBreak(t, start, w, after, i - start);
    }
    assert k < |t| ==> t[k] == after[0];
    BareExactly(c, t, start, k);
    VisibleStart(w);
  }

  lemma VisibleStart(w: Bytes)
    requires w != [] && w[0] > SPACE
    ensures Trimmed(w) != []
    decreases |w|
  {
    if w[|w| - 1] <= SPACE { VisibleStart(w[..|w| - 1]); }
  }

  lemma SameBreak(t: Bytes, start: nat, w: Bytes, after: Bytes, i: nat)
    requires start + |w| <= |t| && t[start..start + |w|] == w && i < |w| && start + |w| + |after| == |t| && t[start + |w|..] == after
    requires after == [] || IsNewline(after[0])
    ensures BreakAt(t, start + i) <==> BreakAt(w, i)
  {
    assert t[start + i] == t[start..start + |w|][i];
    if i + 1 < |w| {
      assert t[start + i + 1] == t[start..start + |w|][i + 1];
    } else if after != [] {
      assert t[start + i + 1] == t[start + |w|..][0];
    }
  }

  lemma SolidHere(t: Bytes, start: nat, w: Bytes, after: Bytes)
    requires start + |w| <= |t| && t[start..start + |w|] == w && w != [] && start + |w| + |after| == |t| && t[start + |w|..] == after
    requires w[0] > SPACE && !CommentAt(w, 0) && (after == [] || IsNewline(after[0]))
    ensures Solid(t, start) && t[start] == w[0]
  {
    assert t[start] == t[start..start + |w|][0];
    if |w| > 1 {
      assert t[start + 1] == t[start..start + |w|][1];
    } else if after != [] {
      assert t[start + 1] == t[start + |w|..][0];
    }
  }

  // ---- Keys ----

  /** A byte a bare key can hold, and one that can stand between a bare key and its colon. Bytes from
      128 on are negative as chars and so are of the second kind. */
  predicate KeyByte(b: Byte) {
    SPACE < b < 128 && !IsPunctuator(b)
  }

  predicate KeyBlank(b: Byte) {
    0 < b <= SPACE || b >= 128
  }

  /** From p to its colon at q stands the bare key. */
  ghost predicate IsBareKey(t: Bytes, p: nat, key: Bytes, q: nat) {
    && key != [] && p + |key| <= q < |t| && t[q] == COLON && t[p..p + |key|] == key
    && (forall i :: p <= i < p + |key| ==> KeyByte(t[i])) && (forall i :: p + |key| <= i < q ==> KeyBlank(t[i]))
  }

  lemma {:induction false} KeyBlanks(t: Bytes, p: nat, start: nat, end: nat, q: nat)
    requires start < end <= p <= q < |t| && t[q] == COLON && forall i :: p <= i < q ==> KeyBlank(t[i])
    ensures UnquotedKey(t, p, start, end, if p > end then Some(end) else None) == TextTo(t[start..end], q)
    decreases q - p
  {
    if p < q {
      KeyBlanks(t, p + 1, start, end, q);
    }
  }

  lemma {:induction false} KeyBytes(t: Bytes, p: nat, start: nat, end: nat, q: nat)
    requires start <= p <= end <= q < |t| && start < end && t[q] == COLON
    requires (forall i :: p <= i < end ==> KeyByte(t[i])) && forall i :: end <= i < q ==> KeyBlank(t[i])
    ensures UnquotedKey(t, p, start, p, None) == TextTo(t[start..end], q)
    decreases end - p
  {
    if p < end {
      KeyBytes(t, p + 1, start, end, q);
    } else {
      KeyBlanks(t, p, start, end, q);
    }
  }

  /** Once a blank was seen behind some key bytes, only blanks and the colon can follow. */
  lemma {:induction false} KeyBlanksOnly(t: Bytes, p: nat, start: nat, end: nat, blank: nat)
    requires start <= end <= p <= |t| && blank < p && UnquotedKey(t, p, start, end, Some(blank)).TextTo?
    ensures var q := UnquotedKey(t, p, start, end, Some(blank)).next;
            && start < end && blank == end && p <= q < |t| && t[q] == COLON && forall i :: p <= i < q ==> KeyBlank(t[i])
    ensures UnquotedKey(t, p, start, end, Some(blank)).s == t[start..end]
    decreases |t| - p
  {
    if t[p] == COLON {
    } else if KeyBlank(t[p]) {
      KeyBlanksOnly(t, p + 1, start, end, blank);
    } else {
      KeyNoMore(t, p + 1, start, blank);
    }
  }

  /** A blank inside a key spoils it. */
  lemma {:induction false} KeyNoMore(t: Bytes, p: nat, start: nat, blank: nat)
    requires start <= p <= |t| && blank < p
    ensures forall end :: start <= end <= p && blank < end ==> UnquotedKey(t, p, start, end, Some(blank)).NoText?
    decreases |t| - p
  {
    if p < |t| {
      KeyNoMore(t, p + 1, start, blank);
    }
  }

  lemma {:induction false} KeyFound(t: Bytes, p: nat, start: nat) returns (end: nat)
    requires start <= p <= |t| && UnquotedKey(t, p, start, p, None).TextTo?
    ensures var r := UnquotedKey(t, p, start, p, None);
            && start < end && p <= end <= r.next < |t| && t[r.next] == COLON && r.s == t[start..end]
            && (forall i :: p <= i < end ==> KeyByte(t[i])) && forall i :: end <= i < r.next ==> KeyBlank(t[i])
    decreases |t| - p
  {
    if t[p] == COLON {
      end := p;
    } else if KeyBlank(t[p]) {
      end := p;
      KeyBlanksOnly(t, p + 1, start, p, p);
    } else {
      end := KeyFound(t, p + 1, start);
    }
  }

  /** What is read as a bare key is exactly one: visible bytes without punctuators, and then nothing but
      blanks up to the colon. */
  lemma BareKeysExactly(t: Bytes, p: nat, key: Bytes, q: nat)
    requires p < |t| && !IsQuote(t[p])
    ensures Key(t, p) == TextTo(key, q) <==> IsBareKey(t, p, key, q)
  {
    hide UnquotedKey;
    if Key(t, p) == TextTo(key, q) {
      var end := KeyFound(t, p, p);
      assert |key| == end - p;
    }
    if IsBareKey(t, p, key, q) {
      KeyBytes(t, p, p, p + |key|, q);
    }
  }
}
