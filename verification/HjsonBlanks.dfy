/** What the parser skips: exactly the blanks and comments that stand at a position. */
module HjsonBlanks {
  import opened ByteStrings
  import opened Ascii
  import opened HjsonScanners
  import opened HjsonSyntax
  import opened HjsonTokens

  /** A comment to the end of its line, from s on, is over at m: behind the first line end, or where the
      text ends. */
  ghost predicate LineOver(t: Bytes, s: nat, m: nat) {
    || (s < m <= |t| && IsNewline(t[m - 1]) && forall i :: s <= i < m - 1 ==> !IsNewline(t[i]))
    || (s <= m == |t| && forall i :: s <= i < |t| ==> !IsNewline(t[i]))
  }

  predicate ClosesAt(t: Bytes, k: nat) {
    k + 1 < |t| && t[k] == STAR && t[k + 1] == SLASH
  }

  /** A block comment, from s on, is over at m: behind the first closing mark. One without a closing mark
      goes to the end, except that the last byte is left when it stands right behind the opening mark
      or behind a star. */
  ghost predicate BlockOver(t: Bytes, s: nat, m: nat)
    requires s <= |t|
  {
    || (s + 2 <= m && ClosesAt(t, m - 2) && forall i :: s <= i < m - 2 ==> !ClosesAt(t, i))
    || ((forall i :: s <= i < |t| ==> !ClosesAt(t, i)) && m == if LastIsLeft(t, s) then |t| - 1 else |t|)
  }

  predicate LastIsLeft(t: Bytes, s: nat) {
    s < |t| && (s == |t| - 1 || t[|t| - 2] == STAR)
  }

  /** One blank byte or one comment, from p to m. */
  ghost predicate Piece(t: Bytes, p: nat, m: nat) {
    && p < |t|
    && if IsSpace(t[p]) then m == p + 1
       else if t[p] == HASH then LineOver(t, p + 1, m)
       else if At(t, p, [SLASH, SLASH]) then LineOver(t, p + 2, m)
       else At(t, p, [SLASH, STAR]) && BlockOver(t, p + 2, m)
  }

  /** Blanks and comments and nothing else from p to q. */
  ghost predicate Gap(t: Bytes, p: nat, q: nat)
    decreases q - p
  {
    p == q || exists m :: p < m <= q && Piece(t, p, m) && Gap(t, m, q)
  }

  // ---- Comments ----

  lemma AfterLineIs(t: Bytes, s: nat, m: nat)
    requires s <= |t|
    ensures LineOver(t, s, m) <==> m == AfterLine(t, s)
  {
    var nl := FirstHit(Newline, t, s, |t|);
    FirstHitAt(Newline, t, s);
    if LineOver(t, s, m) {
      FirstHitIs(Newline, t, s, |t|, if s < m <= |t| && IsNewline(t[m - 1]) && (forall i :: s <= i < m - 1 ==> !IsNewline(t[i])) then m - 1 else |t|);
    }
  }

  lemma {:induction false} FirstHitAt(stop: Stop, t: Bytes, p: nat)
    requires p <= |t|
    ensures var r := FirstHit(stop, t, p, |t|); (forall i :: p <= i < r ==> !Hits(stop, t[i])) && (r < |t| ==> Hits(stop, t[r]))
    decreases |t| - p
  {
    hide Hits;
    if p < |t| && !Hits(stop, t[p]) {
      FirstHitAt(stop, t, p + 1);
    }
  }

  lemma {:induction false} AfterBlockIs(t: Bytes, s: nat)
    requires s <= |t|
    ensures BlockOver(t, s, AfterBlock(t, s))
    decreases |t| - s
  {
    if s + 1 < |t| {
      var star := FirstHit(Exactly(STAR), t, s, |t|);
      FirstHitAt(Exactly(STAR), t, s);
      if star + 1 < |t| && t[star + 1] == SLASH {
      } else if star < |t| {
        AfterBlockIs(t, star + 1);
      }
    }
  }

  lemma BlockOverOnce(t: Bytes, s: nat, m: nat, n: nat)
    requires s <= |t| && BlockOver(t, s, m) && BlockOver(t, s, n)
    ensures m == n
  {
  }

  // ---- One piece ----

  /** One step of the skipping. */
  lemma SkipStep(t: Bytes, p: nat)
    requires p < |t| && !Solid(t, p)
    ensures SkipWs(t, p) ==
              if IsSpace(t[p]) then SkipWs(t, p + 1)
              else if t[p] == HASH then SkipWs(t, AfterLine(t, p + 1))
              else if t[p + 1] == SLASH then SkipWs(t, AfterLine(t, p + 2))
              else SkipWs(t, AfterBlock(t, p + 2))
  {
    hide AfterLine, AfterBlock;
    if IsSpace(t[p]) {
      assert FirstHit(NotSpace, t, p, |t|) == FirstHit(NotSpace, t, p + 1, |t|);
    } else {
      assert FirstHit(NotSpace, t, p, |t|) == p;
    }
  }

  lemma PieceSkipped(t: Bytes, p: nat, m: nat)
    requires Piece(t, p, m)
    ensures p < m <= |t| && SkipWs(t, p) == SkipWs(t, m)
  {
    hide SkipWs, AfterLine, AfterBlock, LineOver, BlockOver;
    TwoAt(t, p);
    SkipStep(t, p);
    if !IsSpace(t[p]) {
      if t[p] == HASH {
        AfterLineIs(t, p + 1, m);
      } else if At(t, p, [SLASH, SLASH]) {
        AfterLineIs(t, p + 2, m);
      } else {
        AfterBlockIs(t, p + 2);
        BlockOverOnce(t, p + 2, m, AfterBlock(t, p + 2));
      }
    }
  }

  lemma TwoAt(t: Bytes, p: nat)
    ensures At(t, p, [SLASH, SLASH]) <==> p + 1 < |t| && t[p] == SLASH && t[p + 1] == SLASH
    ensures At(t, p, [SLASH, STAR]) <==> p + 1 < |t| && t[p] == SLASH && t[p + 1] == STAR
  {
    if p + 1 < |t| {
      assert t[p..p + 2] == [t[p], t[p + 1]];
    }
  }

  lemma PieceThere(t: Bytes, p: nat) returns (m: nat)
    requires p <= |t| && !Solid(t, p)
    ensures Piece(t, p, m)
  {
    TwoAt(t, p);
    if IsSpace(t[p]) {
      m := p + 1;
    } else if t[p] == HASH {
      m := AfterLine(t, p + 1);
      AfterLineIs(t, p + 1, m);
    } else if At(t, p, [SLASH, SLASH]) {
      m := AfterLine(t, p + 2);
      AfterLineIs(t, p + 2, m);
    } else {
      m := AfterBlock(t, p + 2);
      AfterBlockIs(t, p + 2);
    }
  }

  // ---- All of them ----

  lemma {:induction false} GapSkipped(t: Bytes, p: nat, q: nat)
    requires p <= q <= |t| && Gap(t, p, q)
    ensures SkipWs(t, p) == SkipWs(t, q)
    decreases q - p
  {
    hide SkipWs, Piece;
    if p < q {
      var m :| p < m <= q && Piece(t, p, m) && Gap(t, m, q);
      PieceSkipped(t, p, m);
      GapSkipped(t, m, q);
    }
  }

  lemma {:induction false} SkippedIsGap(t: Bytes, p: nat)
    requires p <= |t|
    ensures Gap(t, p, SkipWs(t, p)) && Solid(t, SkipWs(t, p))
    decreases |t| - p
  {
    if Solid(t, p) {
      SkipBlanks(t, p, p);
    } else {
      hide SkipWs, Piece, Solid;
      var m := PieceThere(t, p);
      PieceSkipped(t, p, m);
      SkippedIsGap(t, m);
    }
  }

  /** What is skipped from p is exactly the longest run of blanks and comments that stands there. */
  lemma SkipsExactly(t: Bytes, p: nat, q: nat)
    requires p <= q <= |t|
    ensures q == SkipWs(t, p) <==> Gap(t, p, q) && Solid(t, q)
  {
    hide Gap, SkipWs, Solid;
    if q == SkipWs(t, p) {
      SkippedIsGap(t, p);
    } else if Gap(t, p, q) && Solid(t, q) {
      GapSkipped(t, p, q);
      NothingSkipped(t, q);
    }
  }

  lemma NothingSkipped(t: Bytes, q: nat)
    requires q <= |t| && Solid(t, q)
    ensures SkipWs(t, q) == q
  {
    SkipBlanks(t, q, q);
  }

  /** Between two values blanks and comments are skipped, and at most one comma among them. */
  lemma SeparatorsExactly(t: Bytes, p: nat, k: nat, q: nat)
    requires p <= k <= |t| && Gap(t, p, k) && Solid(t, k) && q <= |t|
    ensures q == SkipSeparator(t, p) <==> if k < |t| && t[k] == COMMA then k < q && Gap(t, k + 1, q) && Solid(t, q) else q == k
  {
    hide Gap, SkipWs, Solid;
    SkipsExactly(t, p, k);
    if k < |t| && k < q { SkipsExactly(t, k + 1, q); }
  }
}
