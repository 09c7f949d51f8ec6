/** Three-apostrophe strings: a block of lines, indented as far as its opening quote, reads as those lines. */
module HjsonMultiline {
  import opened ByteStrings
  import opened Ascii
  import opened HjsonSyntax

  /** A line that a block can hold: no line end in it and no closing quote. */
  ghost predicate Holdable(line: Bytes) {
    LF !in line && CR !in line && forall i :: 0 <= i && i + 2 < |line| ==> !TripleAt(line, i)
  }

  ghost function Blanks(n: nat): Bytes {
    seq(n, _ => SPACE)
  }

  /** The lines after their first indentation, each ended and followed by the indentation of the next. */
  ghost function Block(lines: seq<Bytes>, indent: nat): Bytes {
    if lines == [] then [] else lines[0] + [LF] + Blanks(indent) + Block(lines[1..], indent)
  }

  /** Every line with its line end. */
  ghost function Ended(lines: seq<Bytes>): Bytes {
    if lines == [] then [] else lines[0] + [LF] + Ended(lines[1..])
  }

  const QUOTES: Bytes := [APOSTROPHE, APOSTROPHE, APOSTROPHE]

  lemma {:induction false} SkipsBlanks(t: Bytes, p: nat, most: nat)
    requires p + most <= |t| && t[p..p + most] == Blanks(most)
    ensures SkipIndent(t, p, most) == p + most
    decreases most
  {
    if most > 0 {
      assert t[p] == t[p..p + most][0] == SPACE;
      assert t[p + 1..p + most] == t[p..p + most][1..] == Blanks(most - 1);
      SkipsBlanks(t, p + 1, most - 1);
    }
  }

  // ---- One byte at a time ----

  lemma ReadsApostrophe(t: Bytes, p: nat, indent: nat, acc: Bytes, seen: nat, lastLf: bool)
    requires p < |t| && t[p] == APOSTROPHE && seen < 2
    ensures MultilineFrom(t, p, indent, acc, seen, lastLf) == MultilineFrom(t, p + 1, indent, acc, seen + 1, lastLf)
  {
  }

  lemma ReadsPlain(t: Bytes, p: nat, indent: nat, acc: Bytes, seen: nat, lastLf: bool)
    requires p < |t| && t[p] !in {APOSTROPHE, LF, CR} && seen < 3
    ensures MultilineFrom(t, p, indent, acc, seen, lastLf)
         == MultilineFrom(t, p + 1, indent, acc + Apostrophes(seen) + [t[p]], 0, false)
  {
  }

  lemma ReadsLineEnd(t: Bytes, p: nat, indent: nat, acc: Bytes, seen: nat, lastLf: bool)
    requires p < |t| && t[p] == LF && seen < 3
    ensures MultilineFrom(t, p, indent, acc, seen, lastLf)
         == MultilineFrom(t, SkipIndent(t, p + 1, indent), indent, acc + Apostrophes(seen) + [LF], 0, true)
  {
  }

  lemma ReadsEnd(t: Bytes, p: nat, indent: nat, acc: Bytes)
    requires p + 3 <= |t| && t[p] == t[p + 1] == t[p + 2] == APOSTROPHE
    requires acc != [] && acc[|acc| - 1] == LF
    ensures MultilineFrom(t, p, indent, acc, 0, true) == TextTo(acc[..|acc| - 1], p + 3)
  {
    ReadsApostrophe(t, p, indent, acc, 0, true);
    ReadsApostrophe(t, p + 1, indent, acc, 1, true);
  }

  // ---- Lines ----

  lemma ApostropheMoves(seen: nat, line: Bytes)
    requires line != [] && line[0] == APOSTROPHE
    ensures Apostrophes(seen + 1) + line[1..] == Apostrophes(seen) + line
    ensures seen >= 2 ==> !Holdable(Apostrophes(seen) + line)
  {
    var whole := Apostrophes(seen) + line;
    if seen >= 2 {
      assert whole[0..0 + 3] == QUOTES;
      assert TripleAt(whole, 0);
      assert whole[0] == APOSTROPHE;
    }
  }

  lemma RestHolds(seen: nat, line: Bytes)
    requires line != [] && Holdable(Apostrophes(seen) + line)
    ensures line[0] !in {LF, CR} && Holdable(Apostrophes(0) + line[1..])
  {
    var whole, rest := Apostrophes(seen) + line, Apostrophes(0) + line[1..];
    assert whole[seen] == line[0];
    assert rest == whole[seen + 1..];
    forall i | 0 <= i && i + 2 < |rest|
      ensures !TripleAt(rest, i)
    {
      var k := seen + 1 + i;
      assert !TripleAt(whole, k);
      assert rest[i..i + 3] == whole[k..k + 3];
    }
  }

  /** One line and its end, after `seen` apostrophes of it. */
  lemma {:induction false} ReadsLine(t: Bytes, p: nat, indent: nat, acc: Bytes, seen: nat, lastLf: bool, line: Bytes)
    requires p + |line| < |t| && t[p..p + |line|] == line && t[p + |line|] == LF
    requires seen < 3 && Holdable(Apostrophes(seen) + line)
    ensures MultilineFrom(t, p, indent, acc, seen, lastLf)
         == MultilineFrom(t, SkipIndent(t, p + |line| + 1, indent), indent, acc + (Apostrophes(seen) + line) + [LF], 0, true)
    decreases |line|
  {
    hide MultilineFrom, SkipIndent, Holdable, Apostrophes;
    if line == [] {
      ReadsLineEnd(t, p, indent, acc, seen, lastLf);
      assert Apostrophes(seen) + line == Apostrophes(seen);
    } else {
      var c, rest := line[0], line[1..];
      assert t[p] == c && t[p + 1..p + 1 + |rest|] == rest;
      if c == APOSTROPHE {
        ApostropheMoves(seen, line);
        ReadsApostrophe(t, p, indent, acc, seen, lastLf);
        ReadsLine(t, p + 1, indent, acc, seen + 1, lastLf, rest);
      } else {
        RestHolds(seen, line);
        ReadsPlain(t, p, indent, acc, seen, lastLf);
        var out := acc + Apostrophes(seen) + [c];
        ReadsLine(t, p + 1, indent, out, 0, false, rest);
        assert out + (Apostrophes(0) + rest) == acc + (Apostrophes(seen) + line);
      }
    }
  }

  lemma SliceOfSlice(t: Bytes, p: nat, end: nat, i: nat, j: nat)
    requires p <= end <= |t| && i <= j <= end - p
    ensures t[p..end][i..j] == t[p + i..p + j]
  {
    var whole, part := t[p..end], t[p + i..p + j];
    assert forall k :: 0 <= k < |part| ==> whole[i..j][k] == whole[i + k] == t[p + i + k] == part[k];
  }

  lemma BlockParts(t: Bytes, p: nat, end: nat, line: Bytes, indent: nat, rest: Bytes)
    requires p <= end <= |t| && t[p..end] == line + [LF] + Blanks(indent) + rest
    ensures var q := p + |line| + 1;
            && q + indent <= end && t[p..p + |line|] == line && t[p + |line|] == LF
            && t[q..q + indent] == Blanks(indent) && t[q + indent..end] == rest
  {
    var body, n := t[p..end], |line| + 1;
    assert |Blanks(indent)| == indent;
    SliceOfSlice(t, p, end, 0, |line|);
    assert body[0..|line|] == line && body[|line|] == LF;
    SliceOfSlice(t, p, end, n, n + indent);
    assert body[n..n + indent] == Blanks(indent);
    SliceOfSlice(t, p, end, n + indent, |body|);
    assert body[n + indent..|body|] == rest;
  }

  /** Lines up to the closing quote. The last line end is not part of the text. */
  lemma {:induction false} ReadsBlock(t: Bytes, p: nat, indent: nat, acc: Bytes, lines: seq<Bytes>, end: nat)
    requires p <= end && end + 3 <= |t| && t[p..end] == Block(lines, indent) && t[end..end + 3] == QUOTES
    requires forall i :: 0 <= i < |lines| ==> Holdable(lines[i])
    requires acc + Ended(lines) != [] && (acc != [] ==> acc[|acc| - 1] == LF)
    ensures MultilineFrom(t, p, indent, acc, 0, acc != [])
         == TextTo((acc + Ended(lines))[..|acc + Ended(lines)| - 1], end + 3)
    decreases |lines|
  {
    hide MultilineFrom, SkipIndent, Holdable, Apostrophes;
    if lines == [] {
      assert acc + Ended(lines) == acc;
      QuotesHere(t, end);
      ReadsEnd(t, end, indent, acc);
    } else {
      var line := lines[0];
      var q := p + |line| + 1;
      BlockParts(t, p, end, line, indent, Block(lines[1..], indent));
      assert Apostrophes(0) + line == line;
      ReadsLine(t, p, indent, acc, 0, acc != [], line);
      SkipsBlanks(t, q, indent);
      var out := acc + line + [LF];
      EndedMore(acc, lines);
      ReadsBlock(t, q + indent, indent, out, lines[1..], end);
    }
  }

  lemma QuotesHere(t: Bytes, end: nat)
    requires end + 3 <= |t| && t[end..end + 3] == QUOTES
    ensures t[end] == t[end + 1] == t[end + 2] == APOSTROPHE
  {
    assert t[end] == t[end..end + 3][0] && t[end + 1] == t[end..end + 3][1] && t[end + 2] == t[end..end + 3][2];
  }

  lemma EndedMore(acc: Bytes, lines: seq<Bytes>)
    requires lines != []
    ensures acc + lines[0] + [LF] + Ended(lines[1..]) == acc + Ended(lines)
  {
  }

  /** A block of lines under an opening quote in column n, each indented by n blanks, reads as exactly
      those lines: the indentation, the first line end and the last one are not part of the text. */
  lemma BlockIsItsLines(before: Bytes, lines: seq<Bytes>, after: Bytes)
    requires lines != [] && forall i :: 0 <= i < |lines| ==> Holdable(lines[i])
    ensures var n := Column(before, |before|);
            var t := before + QUOTES + [LF] + Blanks(n) + Block(lines, n) + QUOTES + after;
            Quoted(t, |before|, true) == TextTo(Ended(lines)[..|Ended(lines)| - 1], |t| - |after|)
  {
    hide MultilineFrom, SkipIndent, Column, Block, Ended, Holdable, Blanks;
    var n := Column(before, |before|);
    var block := Block(lines, n);
    var t := before + QUOTES + [LF] + Blanks(n) + block + QUOTES + after;
    var p := |before| + 3;
    BlockLayout(before, Blanks(n), block, after);
    SameColumn(before, t, |before|);
    StopsAtLineEnd(t, p, |t|);
    BlankSize(n);
    SkipsBlanks(t, p + 1, n);
    var q := p + 1 + n;
    NotEmpty(lines);
    assert [] + Ended(lines) == Ended(lines);
    ReadsBlock(t, q, n, [], lines, q + |block|);
  }

  lemma BlankSize(n: nat)
    ensures |Blanks(n)| == n
  {
  }

  /** Where the parts of a block string stand. */
  lemma BlockLayout(before: Bytes, blanks: Bytes, block: Bytes, after: Bytes)
    ensures var t := before + QUOTES + [LF] + blanks + block + QUOTES + after;
            var p := |before| + 3;
            var q := p + 1 + |blanks|;
            var end := q + |block|;
            && before <= t && TripleAt(t, |before|) && t[|before|] == APOSTROPHE && t[p] == LF
            && t[p + 1..q] == blanks && t[q..end] == block && t[end..end + 3] == QUOTES
  {
    var t := before + QUOTES + [LF] + blanks + block + QUOTES + after;
    var p := |before| + 3;
    var q := p + 1 + |blanks|;
    var end := q + |block|;
    assert t == before + (QUOTES + [LF] + blanks + block + QUOTES + after);
    assert t[|before|..|before| + 3] == QUOTES;
    assert t[|before|] == QUOTES[0];
    assert t[p + 1..q] == blanks && t[q..end] == block && t[end..end + 3] == QUOTES;
  }

  lemma NotEmpty(lines: seq<Bytes>)
    requires lines != []
    ensures Ended(lines) != []
  {
  }

  lemma StopsAtLineEnd(t: Bytes, p: nat, most: nat)
    requires p < |t| && t[p] == LF
    ensures SkipIndent(t, p, most) == p
  {
  }

  lemma {:induction false} SameColumn(s: Bytes, t: Bytes, p: nat)
    requires s <= t && p <= |s|
    ensures Column(s, p) == Column(t, p)
  {
    if p > 0 { SameColumn(s, t, p - 1); }
  }

  // ---- Any three-apostrophe string ----

  /** How many blanks a line loses. */
  function Indented(s: Bytes, most: nat): (n: nat)
    ensures n <= |s| && n <= most
    decreases most
  {
    if most > 0 && s != [] && 0 < s[0] <= SPACE && s[0] != LF then 1 + Indented(s[1..], most - 1) else 0
  }

  /** Carriage returns go, and every line after the first loses its indentation. */
  function Cleaned(s: Bytes, indent: nat): Bytes
    decreases |s|
  {
    if s == [] then []
    else if s[0] == LF then [LF] + Cleaned(s[1..][Indented(s[1..], indent)..], indent)
    else if s[0] == CR then Cleaned(s[1..], indent)
    else [s[0]] + Cleaned(s[1..], indent)
  }

  predicate EndsLine(s: Bytes) {
    s != [] && s[|s| - 1] == LF
  }

  /** One line end at the end is not part of the text. */
  function Closed(s: Bytes): Bytes {
    if EndsLine(s) then s[..|s| - 1] else s
  }

  /** The first closing quote at or after p. */
  ghost predicate ClosesFirst(t: Bytes, p: nat, k: nat) {
    p <= k && TripleAt(t, k) && forall i :: p <= i < k ==> !TripleAt(t, i)
  }

  lemma {:induction false} SkipIndentIs(t: Bytes, p: nat, most: nat, k: nat)
    requires p <= k < |t| && t[k] == APOSTROPHE
    ensures SkipIndent(t, p, most) == p + Indented(t[p..k], most) && p + Indented(t[p..k], most) <= k
    decreases most
  {
    if most > 0 && p < k {
      assert t[p..k][0] == t[p] && t[p..k][1..] == t[p + 1..k];
      SkipIndentIs(t, p + 1, most - 1, k);
    }
  }

  lemma PlainStays(b: Byte, s: Bytes, indent: nat)
    requires b != LF && b != CR
    ensures Cleaned([b] + s, indent) == [b] + Cleaned(s, indent)
  {
    assert ([b] + s)[1..] == s;
  }

  lemma ApostrophesSplit(n: nat, s: Bytes)
    requires n > 0
    ensures Apostrophes(n) + s == [APOSTROPHE] + (Apostrophes(n - 1) + s)
  {
  }

  lemma {:induction false} ApostrophesStay(n: nat, s: Bytes, indent: nat)
    ensures Cleaned(Apostrophes(n) + s, indent) == Apostrophes(n) + Cleaned(s, indent)
  {
    if n == 0 {
      assert Apostrophes(0) + s == s;
      assert Apostrophes(0) + Cleaned(s, indent) == Cleaned(s, indent);
    } else {
      hide Cleaned, Apostrophes;
      ApostrophesStay(n - 1, s, indent);
      ApostrophesSplit(n, s);
      ApostrophesSplit(n, Cleaned(s, indent));
      PlainStays(APOSTROPHE, Apostrophes(n - 1) + s, indent);
    }
  }

  lemma TripleIs(t: Bytes, p: nat)
    ensures TripleAt(t, p) <==> p + 3 <= |t| && t[p] == t[p + 1] == t[p + 2] == APOSTROPHE
  {
    if p + 3 <= |t| {
      assert t[p..p + 3] == [t[p], t[p + 1], t[p + 2]];
    }
  }

  /** `from` is where the apostrophes under way begin. */
  lemma {:induction false} ReadsToClose(t: Bytes, p: nat, indent: nat, acc: Bytes, seen: nat, lastLf: bool, from: nat, k: nat)
    requires seen < 3 && from + seen == p <= |t| && (forall i :: from <= i < p ==> t[i] == APOSTROPHE)
    requires ClosesFirst(t, from, k) && lastLf == EndsLine(acc)
    ensures MultilineFrom(t, p, indent, acc, seen, lastLf) == TextTo(Closed(acc + Cleaned(t[from..k], indent)), k + 3)
    decreases |t| - p
  {
    TripleIs(t, k);
    TripleIs(t, from);
    if t[p] == APOSTROPHE {
      if seen < 2 {
        ReadsApostrophe(t, p, indent, acc, seen, lastLf);
        ReadsToClose(t, p + 1, indent, acc, seen + 1, lastLf, from, k);
      } else {
        assert from == k;
        assert acc + Cleaned(t[from..k], indent) == acc;
      }
    } else {
      NotYet(t, from, p, k);
      hide TripleAt, Cleaned, Closed, SkipIndent;
      var out := acc + Apostrophes(seen);
      assert t[from..k] == Apostrophes(seen) + t[p..k];
      ApostrophesStay(seen, t[p..k], indent);
      assert acc + Cleaned(t[from..k], indent) == out + Cleaned(t[p..k], indent);
      PlainToClose(t, p, indent, acc, seen, lastLf, k);
    }
  }

  lemma NotYet(t: Bytes, from: nat, p: nat, k: nat)
    requires from <= p < |t| && t[p] != APOSTROPHE && ClosesFirst(t, from, k) && p < from + 3
    requires forall i :: from <= i < p ==> t[i] == APOSTROPHE
    ensures p < k && forall q :: p < q <= k ==> ClosesFirst(t, q, k)
  {
    TripleIs(t, k);
  }

  /** A byte that is no apostrophe. */
  lemma {:induction false} PlainToClose(t: Bytes, p: nat, indent: nat, acc: Bytes, seen: nat, lastLf: bool, k: nat)
    requires seen < 3 && p < k < |t| && t[p] != APOSTROPHE && t[k] == APOSTROPHE && lastLf == EndsLine(acc)
    requires forall q :: p < q <= k ==> ClosesFirst(t, q, k)
    ensures MultilineFrom(t, p, indent, acc, seen, lastLf)
         == TextTo(Closed(acc + Apostrophes(seen) + Cleaned(t[p..k], indent)), k + 3)
    decreases |t| - p, 0
  {
    hide ClosesFirst, SkipIndent, Closed;
    var out, rest := acc + Apostrophes(seen), t[p..k];
    assert rest[0] == t[p] && rest[1..] == t[p + 1..k];
    if t[p] == LF {
      ReadsLineEnd(t, p, indent, acc, seen, lastLf);
      SkipIndentIs(t, p + 1, indent, k);
      var q := SkipIndent(t, p + 1, indent);
      assert rest[1..][Indented(rest[1..], indent)..] == t[q..k];
      ReadsToClose(t, q, indent, out + [LF], 0, true, q, k);
      assert out + [LF] + Cleaned(t[q..k], indent) == out + Cleaned(rest, indent);
    } else if t[p] == CR {
      ReadsReturn(t, p, indent, acc, seen, lastLf);
      EndsAfter(acc, seen);
      ReadsToClose(t, p + 1, indent, out, 0, lastLf && seen == 0, p + 1, k);
    } else {
      ReadsPlain(t, p, indent, acc, seen, lastLf);
      ReadsToClose(t, p + 1, indent, out + [t[p]], 0, false, p + 1, k);
      assert out + [t[p]] + Cleaned(t[p + 1..k], indent) == out + Cleaned(rest, indent);
    }
  }

  lemma EndsAfter(acc: Bytes, seen: nat)
    ensures EndsLine(acc + Apostrophes(seen)) <==> EndsLine(acc) && seen == 0
  {
    if seen == 0 {
      assert acc + Apostrophes(0) == acc;
    } else {
      assert (acc + Apostrophes(seen))[|acc| + seen - 1] == APOSTROPHE;
    }
  }

  lemma ReadsReturn(t: Bytes, p: nat, indent: nat, acc: Bytes, seen: nat, lastLf: bool)
    requires p < |t| && t[p] == CR && seen < 3
    ensures MultilineFrom(t, p, indent, acc, seen, lastLf)
         == MultilineFrom(t, p + 1, indent, acc + Apostrophes(seen), 0, lastLf && seen == 0)
  {
  }

  lemma {:induction false} NeverCloses(t: Bytes, p: nat, indent: nat, acc: Bytes, seen: nat, lastLf: bool, from: nat)
    requires seen < 3 && from + seen == p <= |t| && (forall i :: from <= i < p ==> t[i] == APOSTROPHE)
    requires forall i :: from <= i ==> !TripleAt(t, i)
    ensures MultilineFrom(t, p, indent, acc, seen, lastLf).NoText?
    decreases |t| - p
  {
    hide SkipIndent;
    TripleIs(t, from);
    if p < |t| {
      if t[p] == APOSTROPHE {
        NeverCloses(t, p + 1, indent, acc, seen + 1, lastLf, from);
      } else if t[p] == LF {
        var q := SkipIndent(t, p + 1, indent);
        NeverCloses(t, q, indent, acc + Apostrophes(seen) + [LF], 0, true, q);
      } else if t[p] == CR {
        NeverCloses(t, p + 1, indent, acc + Apostrophes(seen), 0, lastLf && seen == 0, p + 1);
      } else {
        NeverCloses(t, p + 1, indent, acc + Apostrophes(seen) + [t[p]], 0, false, p + 1);
      }
    }
  }

  /** A three-apostrophe string ends at the next three apostrophes and is the cleaned text up to there; without them it is none. */
  lemma MultilineExactly(t: Bytes, p: nat, s: Bytes, q: nat)
    requires p + 3 <= |t|
    ensures var indent := Column(t, p);
            var start := MultilineStart(t, p + 3, indent);
            Multiline(t, p) == TextTo(s, q) <==>
              exists k: nat :: ClosesFirst(t, start, k) && q == k + 3 && s == Closed(Cleaned(t[start..k], indent))
  {
    hide MultilineStart, Column, Cleaned, Closed, MultilineFrom, TripleAt;
    var indent := Column(t, p);
    var start := MultilineStart(t, p + 3, indent);
    if exists k :: start <= k && TripleAt(t, k) {
      var k := FirstClose(t, start);
      ReadsToClose(t, start, indent, [], 0, false, start, k);
      assert [] + Cleaned(t[start..k], indent) == Cleaned(t[start..k], indent);
      if Multiline(t, p) == TextTo(s, q) {
        assert ClosesFirst(t, start, k) && q == k + 3 && s == Closed(Cleaned(t[start..k], indent));
      }
      forall j: nat | ClosesFirst(t, start, j)
        ensures j == k
      {
        ClosesOnce(t, start, j, k);
      }
    } else {
      assert forall j: nat :: start <= j ==> !TripleAt(t, j);
      NeverCloses(t, start, indent, [], 0, false, start);
    }
  }

  lemma ClosesOnce(t: Bytes, p: nat, j: nat, k: nat)
    requires ClosesFirst(t, p, j) && ClosesFirst(t, p, k)
    ensures j == k
  {
  }

  lemma {:induction false} FirstClose(t: Bytes, p: nat) returns (k: nat)
    requires exists i :: p <= i && TripleAt(t, i)
    ensures ClosesFirst(t, p, k)
    decreases |t| - p
  {
    if TripleAt(t, p) {
      k := p;
    } else {
      var i :| p <= i && TripleAt(t, i);
      TripleIs(t, i);
      k := FirstClose(t, p + 1);
    }
  }

  /** The column of a position is how many bytes back its line begins. */
  lemma {:induction false} ColumnIs(t: Bytes, p: nat, n: nat)
    requires n <= p <= |t|
    ensures Column(t, p) == n <==> (forall i :: p - n <= i < p ==> t[i] != LF && t[i] != 0) && (n == p || t[p - n - 1] == LF || t[p - n - 1] == 0)
  {
    if p > 0 && t[p - 1] != LF && t[p - 1] != 0 && n > 0 {
      ColumnIs(t, p - 1, n - 1);
    }
  }

  /** A line loses its leading blanks, but no more than it may. */
  lemma {:induction false} IndentedIs(s: Bytes, most: nat, n: nat)
    requires n <= |s| && n <= most
    ensures Indented(s, most) == n <==>
              (forall i :: 0 <= i < n ==> 0 < s[i] <= SPACE && s[i] != LF) && (n == most || n == |s| || !(0 < s[n] <= SPACE && s[n] != LF))
    decreases most
  {
    if most > 0 && s != [] && n > 0 {
      IndentedIs(s[1..], most - 1, n - 1);
      assert forall i :: 0 <= i < |s[1..]| ==> s[1..][i] == s[i + 1];
      assert (forall i :: 0 <= i < n ==> 0 < s[i] <= SPACE && s[i] != LF) <==>
             (0 < s[0] <= SPACE && s[0] != LF && forall i :: 0 <= i < n - 1 ==> 0 < s[1..][i] <= SPACE && s[1..][i] != LF) by {
        assert forall i :: 0 < i < n ==> s[i] == s[1..][i - 1];
      }
    }
  }

  lemma {:induction false} SkipIndentCounts(t: Bytes, p: nat, most: nat)
    requires p <= |t|
    ensures SkipIndent(t, p, most) == p + Indented(t[p..], most)
    decreases most
  {
    if most > 0 && p < |t| {
      assert t[p..][1..] == t[p + 1..];
      SkipIndentCounts(t, p + 1, most - 1);
    }
  }

  /** The text begins behind blanks, and on the next line, behind its indentation, if the first one is blank. */
  lemma StartIs(t: Bytes, p: nat, indent: nat)
    requires p <= |t|
    ensures var q := p + Indented(t[p..], |t|);
            MultilineStart(t, p, indent) == if q < |t| && t[q] == LF then q + 1 + Indented(t[q + 1..], indent) else q
  {
    hide SkipIndent, Indented;
    SkipIndentCounts(t, p, |t|);
    var q := p + Indented(t[p..], |t|);
    if q < |t| && t[q] == LF { SkipIndentCounts(t, q + 1, indent); }
  }
}
