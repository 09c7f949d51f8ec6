/** Objects, arrays and whole texts: exactly which texts they are and what they hold. */
module HjsonStructure {
  import opened ByteStrings
  import opened DataNodes
  import opened Ascii
  import opened HjsonSyntax
  import opened HjsonTokens
  import Libc

  // ---- Objects ----

  /** A member as it was found: its key and where that ends, its value and where that ends. */
  datatype Member = Member(key: Bytes, keyEnd: nat, val: Value, next: nat)

  /** From p to e stand these members: a key, a colon and a value each, with blanks anywhere between and
      at most one comma behind each. */
  ghost predicate AreMembers(c: Libc.Calls, t: Bytes, p: nat, ms: seq<Member>, e: nat, depth: nat, braced: bool)
    requires p <= |t|
    decreases |ms|
  {
    if ms == [] then p == e
    else
      && p < |t| && !(braced && t[p] == RBRACE)
      && Key(t, p) == TextTo(ms[0].key, ms[0].keyEnd)
      && var colon := SkipWs(t, ms[0].keyEnd);
         && colon < |t| && t[colon] == COLON
         && ParseValue(c, t, SkipWs(t, colon + 1), depth + 1) == Good(ms[0].val, ms[0].next)
         && AreMembers(c, t, SkipSeparator(t, ms[0].next), ms[1..], e, depth, braced)
  }

  /** Later members of a key replace earlier ones. */
  function Assigned(acc: map<Bytes, Value>, ms: seq<Member>): map<Bytes, Value>
    decreases |ms|
  {
    if ms == [] then acc else Assigned(acc[ms[0].key := ms[0].val], ms[1..])
  }

  /** The last member of a key, or -1. */
  function LastOf(ms: seq<Member>, key: Bytes): (i: int)
    ensures -1 <= i < |ms| && (i >= 0 ==> ms[i].key == key) && forall j :: i < j < |ms| ==> ms[j].key != key
  {
    if ms == [] then -1
    else if ms[|ms| - 1].key == key then |ms| - 1
    else LastOf(ms[..|ms| - 1], key)
  }

  lemma {:induction false} AssignedLast(acc: map<Bytes, Value>, ms: seq<Member>, m: Member)
    ensures Assigned(acc, ms + [m]) == Assigned(acc, ms)[m.key := m.val]
    decreases |ms|
  {
    if ms == [] {
      assert ms + [m] == [m];
    } else {
      assert (ms + [m])[1..] == ms[1..] + [m];
      AssignedLast(acc[ms[0].key := ms[0].val], ms[1..], m);
    }
  }

  /** The last member of a key decides, and there are no other keys. */
  lemma {:induction false} LastDecides(ms: seq<Member>, key: Bytes)
    ensures var i := LastOf(ms, key);
            if i < 0 then key !in Assigned(map[], ms) else key in Assigned(map[], ms) && Assigned(map[], ms)[key] == ms[i].val
    decreases |ms|
  {
    if ms != [] {
      var n := |ms| - 1;
      LastDecides(ms[..n], key);
      AssignedLast(map[], ms[..n], ms[n]);
      assert ms == ms[..n] + [ms[n]];
    }
  }

  /** Where the members end, and where reading goes on. */
  ghost predicate ObjectEnds(t: Bytes, e: nat, braced: bool, q: nat) {
    if braced then e < |t| && t[e] == RBRACE && q == e + 1 else e == |t| == q
  }

  lemma FieldsTurn(c: Libc.Calls, t: Bytes, p: nat, depth: nat, braced: bool, acc: map<Bytes, Value>, m: Member)
    requires p < |t| && !(braced && t[p] == RBRACE) && Key(t, p) == TextTo(m.key, m.keyEnd)
    requires var colon := SkipWs(t, m.keyEnd); colon < |t| && t[colon] == COLON
    requires ParseValue(c, t, SkipWs(t, SkipWs(t, m.keyEnd) + 1), depth + 1) == Good(m.val, m.next)
    ensures ParseFields(c, t, p, depth, braced, acc) == ParseFields(c, t, SkipSeparator(t, m.next), depth, braced, acc[m.key := m.val])
  {
    hide Key, SkipWs, ParseValue, SkipSeparator;
  }

  lemma {:induction false} MembersRead(c: Libc.Calls, t: Bytes, p: nat, ms: seq<Member>, e: nat, depth: nat, braced: bool, acc: map<Bytes, Value>, q: nat)
    requires p <= |t| && AreMembers(c, t, p, ms, e, depth, braced) && ObjectEnds(t, e, braced, q)
    ensures ParseFields(c, t, p, depth, braced, acc) == Good(VObject(Assigned(acc, ms)), q)
    decreases |ms|
  {
    hide Key, SkipWs, ParseValue, SkipSeparator;
    if ms != [] {
      hide ParseFields;
      FieldsTurn(c, t, p, depth, braced, acc, ms[0]);
      MembersRead(c, t, SkipSeparator(t, ms[0].next), ms[1..], e, depth, braced, acc[ms[0].key := ms[0].val], q);
    }
  }

  lemma {:induction false} MembersFound(c: Libc.Calls, t: Bytes, p: nat, depth: nat, braced: bool, acc: map<Bytes, Value>) returns (ms: seq<Member>, e: nat)
    requires p <= |t| && ParseFields(c, t, p, depth, braced, acc).Good?
    ensures AreMembers(c, t, p, ms, e, depth, braced) && ObjectEnds(t, e, braced, ParseFields(c, t, p, depth, braced, acc).next)
    decreases |t| - p
  {
    hide Key, SkipWs, ParseValue, SkipSeparator;
    if p < |t| && !(braced && t[p] == RBRACE) {
      var key := Key(t, p);
      var v := ParseValue(c, t, SkipWs(t, SkipWs(t, key.next) + 1), depth + 1);
      var rest;
      rest, e := MembersFound(c, t, SkipSeparator(t, v.next), depth, braced, acc[key.s := v.value]);
      ms := [Member(key.s, key.next, v.value, v.next)] + rest;
      assert ms[1..] == rest;
    } else {
      ms, e := [], p;
    }
  }

  /** What is read as an object is exactly the members that stand there up to its end, the last of a key deciding. */
  lemma ObjectsExactly(c: Libc.Calls, t: Bytes, p: nat, depth: nat, braced: bool, v: Value, q: nat)
    requires p <= |t|
    ensures ParseFields(c, t, p, depth, braced, map[]) == Good(v, q) <==>
              exists ms, e :: AreMembers(c, t, p, ms, e, depth, braced) && ObjectEnds(t, e, braced, q) && v == VObject(Assigned(map[], ms))
  {
    hide ParseFields, AreMembers, ObjectEnds, Assigned;
    if ParseFields(c, t, p, depth, braced, map[]) == Good(v, q) {
      var ms, e := MembersFound(c, t, p, depth, braced, map[]);
      MembersRead(c, t, p, ms, e, depth, braced, map[], q);
    }
    if ms, e :| AreMembers(c, t, p, ms, e, depth, braced) && ObjectEnds(t, e, braced, q) && v == VObject(Assigned(map[], ms)) {
      MembersRead(c, t, p, ms, e, depth, braced, map[], q);
    }
  }

  // ---- Arrays ----

  datatype Element = Element(val: Value, next: nat)

  /** From p to e stand these values, with blanks anywhere between and at most one comma behind each. */
  ghost predicate AreElements(c: Libc.Calls, t: Bytes, p: nat, es: seq<Element>, e: nat, depth: nat)
    requires p <= |t|
    decreases |es|
  {
    if es == [] then p == e
    else
      && p < |t| && t[p] != RBRACKET && ParseValue(c, t, p, depth + 1) == Good(es[0].val, es[0].next)
      && AreElements(c, t, SkipSeparator(t, es[0].next), es[1..], e, depth)
  }

  function Values(es: seq<Element>): (r: seq<Value>)
    ensures |r| == |es| && forall i :: 0 <= i < |es| ==> r[i] == es[i].val
  {
    seq(|es|, i requires 0 <= i < |es| => es[i].val)
  }

  lemma {:induction false} ElementsRead(c: Libc.Calls, t: Bytes, p: nat, es: seq<Element>, e: nat, depth: nat, acc: seq<Value>)
    requires p <= |t| && AreElements(c, t, p, es, e, depth) && e < |t| && t[e] == RBRACKET
    ensures ParseElems(c, t, p, depth, acc) == Good(VArray(acc + Values(es)), e + 1)
    decreases |es|
  {
    hide ParseValue, SkipSeparator;
    if es == [] {
      assert acc + Values(es) == acc;
    } else {
      ElementsRead(c, t, SkipSeparator(t, es[0].next), es[1..], e, depth, acc + [es[0].val]);
      assert acc + Values(es) == acc + [es[0].val] + Values(es[1..]);
    }
  }

  lemma {:induction false} ElementsFound(c: Libc.Calls, t: Bytes, p: nat, depth: nat, acc: seq<Value>) returns (es: seq<Element>, e: nat)
    requires p <= |t| && ParseElems(c, t, p, depth, acc).Good?
    ensures AreElements(c, t, p, es, e, depth) && e < |t| && t[e] == RBRACKET && ParseElems(c, t, p, depth, acc).next == e + 1
    decreases |t| - p
  {
    hide ParseValue, SkipSeparator;
    if t[p] == RBRACKET {
      es, e := [], p;
    } else {
      var v := ParseValue(c, t, p, depth + 1);
      var rest;
      rest, e := ElementsFound(c, t, SkipSeparator(t, v.next), depth, acc + [v.value]);
      es := [Element(v.value, v.next)] + rest;
      assert es[1..] == rest;
    }
  }

  /** What is read as an array is exactly the values that stand there up to its bracket, in order. */
  lemma ArraysExactly(c: Libc.Calls, t: Bytes, p: nat, depth: nat, v: Value, q: nat)
    requires p <= |t|
    ensures ParseElems(c, t, p, depth, []) == Good(v, q) <==>
              exists es, e: nat :: AreElements(c, t, p, es, e, depth) && e < |t| && t[e] == RBRACKET && q == e + 1 && v == VArray(Values(es))
  {
    hide ParseElems, AreElements;
    if ParseElems(c, t, p, depth, []) == Good(v, q) {
      var es, e := ElementsFound(c, t, p, depth, []);
      ElementsRead(c, t, p, es, e, depth, []);
      assert [] + Values(es) == Values(es);
    }
    if es, e: nat :| AreElements(c, t, p, es, e, depth) && e < |t| && t[e] == RBRACKET && q == e + 1 && v == VArray(Values(es)) {
      ElementsRead(c, t, p, es, e, depth, []);
      assert [] + Values(es) == Values(es);
    }
  }

  // ---- Values ----

  /** What a value is told by: the byte it begins with, behind blanks. A closing bracket, a comma or a
      colon begins none. */
  lemma ValuesByFirstByte(c: Libc.Calls, t: Bytes, p: nat, depth: nat)
    requires p <= |t| && depth <= HjsonSyntax.MAX_DEPTH
    ensures var q := SkipWs(t, p);
            if q == |t| || t[q] in {RBRACE, RBRACKET, COMMA, COLON} then ParseValue(c, t, p, depth).Bad?
            else if t[q] == LBRACE then ParseValue(c, t, p, depth) == ParseFields(c, t, SkipWs(t, q + 1), depth, true, map[])
            else if t[q] == LBRACKET then ParseValue(c, t, p, depth) == ParseElems(c, t, SkipWs(t, q + 1), depth, [])
            else if IsQuote(t[q]) then
              ParseValue(c, t, p, depth) == match Quoted(t, q, true) case NoText => Bad case TextTo(s, next) => Good(VStr(s), next)
            else ParseValue(c, t, p, depth) == Unquoted(c, t, q)
  {
    hide ParseFields, ParseElems, UnquotedFrom, SkipWs;
  }

  // ---- Depth ----

  /** How many containers a value has one inside the other. */
  ghost predicate NestedWithin(v: Value, levels: nat)
    decreases v
  {
    match v
    case VArray(xs) => levels > 0 && forall i :: 0 <= i < |xs| ==> NestedWithin(xs[i], levels - 1)
    case VObject(m) => levels > 0 && forall k :: k in m ==> NestedWithin(m[k], levels - 1)
    case _ => true
  }

  lemma KnownIsFlat(c: Libc.Calls, s: Bytes)
    ensures KeywordOrNumber(c, s).Some? ==> var v := KeywordOrNumber(c, s).value; !v.VArray? && !v.VObject?
  {
    hide NumberShape;
  }

  lemma {:induction false} BareIsFlat(c: Libc.Calls, t: Bytes, p: nat, start: nat, end: nat)
    requires start <= end <= p <= |t|
    ensures UnquotedFrom(c, t, p, start, end).Good? ==> var v := UnquotedFrom(c, t, p, start, end).value; !v.VArray? && !v.VObject?
    decreases |t| - p
  {
    hide KeywordOrNumber;
    KnownIsFlat(c, t[start..end]);
    if p < |t| {
      BareIsFlat(c, t, p + 1, start, if t[p] > SPACE then p + 1 else end);
    }
  }

  /** Whatever is accepted has no more than 257 containers one inside the other. */
  lemma {:induction false} AcceptedIsShallow(c: Libc.Calls, t: Bytes, p: nat, depth: nat)
    requires p <= |t| && ParseValue(c, t, p, depth).Good?
    ensures depth <= HjsonSyntax.MAX_DEPTH && NestedWithin(ParseValue(c, t, p, depth).value, HjsonSyntax.MAX_DEPTH + 1 - depth)
    decreases |t| - p, 1
  {
    hide ParseFields, ParseElems, UnquotedFrom, Quoted, SkipWs;
    var q := SkipWs(t, p);
    if t[q] == LBRACE {
      ObjectIsShallow(c, t, SkipWs(t, q + 1), depth, true, map[]);
    } else if t[q] == LBRACKET {
      ArrayIsShallow(c, t, SkipWs(t, q + 1), depth, []);
    } else if !IsQuote(t[q]) {
      BareIsFlat(c, t, if 0 < t[q] <= SPACE then q + 1 else q, if 0 < t[q] <= SPACE then q + 1 else q, if 0 < t[q] <= SPACE then q + 1 else q);
    }
  }

  lemma {:induction false} ObjectIsShallow(c: Libc.Calls, t: Bytes, p: nat, depth: nat, braced: bool, acc: map<Bytes, Value>)
    requires p <= |t| && ParseFields(c, t, p, depth, braced, acc).Good? && depth <= HjsonSyntax.MAX_DEPTH
    requires forall k :: k in acc ==> NestedWithin(acc[k], HjsonSyntax.MAX_DEPTH - depth)
    ensures NestedWithin(ParseFields(c, t, p, depth, braced, acc).value, HjsonSyntax.MAX_DEPTH + 1 - depth)
    decreases |t| - p, 2
  {
    hide Key, SkipWs, ParseValue, SkipSeparator;
    if p < |t| && !(braced && t[p] == RBRACE) {
      var key := Key(t, p);
      var at := SkipWs(t, SkipWs(t, key.next) + 1);
      var v := ParseValue(c, t, at, depth + 1);
      AcceptedIsShallow(c, t, at, depth + 1);
      ObjectIsShallow(c, t, SkipSeparator(t, v.next), depth, braced, acc[key.s := v.value]);
    }
  }

  lemma {:induction false} ArrayIsShallow(c: Libc.Calls, t: Bytes, p: nat, depth: nat, acc: seq<Value>)
    requires p <= |t| && ParseElems(c, t, p, depth, acc).Good? && depth <= HjsonSyntax.MAX_DEPTH
    requires forall i :: 0 <= i < |acc| ==> NestedWithin(acc[i], HjsonSyntax.MAX_DEPTH - depth)
    ensures NestedWithin(ParseElems(c, t, p, depth, acc).value, HjsonSyntax.MAX_DEPTH + 1 - depth)
    decreases |t| - p, 2
  {
    hide SkipWs, ParseValue, SkipSeparator;
    if t[p] != RBRACKET {
      var v := ParseValue(c, t, p, depth + 1);
      AcceptedIsShallow(c, t, p, depth + 1);
      ArrayIsShallow(c, t, SkipSeparator(t, v.next), depth, acc + [v.value]);
    }
  }

  function Brackets(n: nat): Value
    requires n > 0
  {
    if n == 1 then VArray([]) else VArray([Brackets(n - 1)])
  }

  lemma BracketHere(t: Bytes, p: nat)
    requires p < |t| && (t[p] == LBRACKET || t[p] == RBRACKET || t[p] == LBRACE || t[p] == RBRACE)
    ensures SkipWs(t, p) == p && SkipSeparator(t, p) == p
  {
    hide SkipWs;
    SkipBlanks(t, p, p);
  }

  /** Arrays one inside the other are accepted exactly up to that depth. */
  lemma {:induction false} BracketsExactly(c: Libc.Calls, t: Bytes, p: nat, n: nat, depth: nat)
    requires n > 0 && p + 2 * n <= |t| && depth <= HjsonSyntax.MAX_DEPTH + 1
    requires (forall i :: p <= i < p + n ==> t[i] == LBRACKET) && (forall i :: p + n <= i < p + 2 * n ==> t[i] == RBRACKET)
    ensures ParseValue(c, t, p, depth) == if depth + n <= HjsonSyntax.MAX_DEPTH + 1 then Good(Brackets(n), p + 2 * n) else Bad
    decreases n
  {
    hide SkipWs, SkipSeparator;
    if depth <= HjsonSyntax.MAX_DEPTH {
      BracketHere(t, p);
      BracketHere(t, p + 1);
      if n > 1 {
        BracketsExactly(c, t, p + 1, n - 1, depth + 1);
        BracketHere(t, p + 2 * n - 1);
      }
      OneBracket(c, t, p, n, depth);
    }
  }

  lemma OneBracket(c: Libc.Calls, t: Bytes, p: nat, n: nat, depth: nat)
    requires n > 0 && p + 2 * n <= |t| && t[p] == LBRACKET && t[p + 2 * n - 1] == RBRACKET && depth <= HjsonSyntax.MAX_DEPTH
    requires SkipWs(t, p) == p && SkipWs(t, p + 1) == p + 1 && (n > 1 ==> t[p + 1] == LBRACKET && SkipSeparator(t, p + 2 * n - 1) == p + 2 * n - 1)
    requires n > 1 ==> ParseValue(c, t, p + 1, depth + 1) == if depth + n <= HjsonSyntax.MAX_DEPTH + 1 then Good(Brackets(n - 1), p + 2 * n - 1) else Bad
    ensures ParseValue(c, t, p, depth) == if depth + n <= HjsonSyntax.MAX_DEPTH + 1 then Good(Brackets(n), p + 2 * n) else Bad
  {
    hide SkipWs, SkipSeparator;
    ValuesByFirstByte(c, t, p, depth);
    if n == 1 {
      assert ParseElems(c, t, p + 1, depth, []) == Good(VArray([]), p + 2);
    } else {
      hide ParseValue;
      var v := ParseValue(c, t, p + 1, depth + 1);
      if v.Good? {
        assert ParseElems(c, t, p + 2 * n - 1, depth, [v.value]) == Good(VArray([v.value]), p + 2 * n);
        assert [] + [v.value] == [v.value];
      }
    }
  }

  // ---- Whole texts ----

  /** Blanks, one value or the members of an object, blanks, and nothing else. */
  ghost predicate IsDocument(c: Libc.Calls, t: Bytes, v: Value, asMembers: bool) {
    var p := SkipWs(t, 0);
    && p < |t|
    && exists q: nat ::
         && q <= |t| && SkipWs(t, q) == |t|
         && (if asMembers then ParseFields(c, t, p, 0, false, map[]) == Good(v, q) else ParseValue(c, t, p, 0) == Good(v, q))
  }

  /** A whole text is accepted exactly when it is one value, or members without braces; where it could be
      both it is the members, unless it begins with a brace or bracket. */
  lemma TextsExactly(c: Libc.Calls, t: Bytes, v: Value)
    ensures var p := SkipWs(t, 0);
            var bracketed := p < |t| && (t[p] == LBRACE || t[p] == LBRACKET);
            Parse(c, t) == Some(v) <==>
              if bracketed then IsDocument(c, t, v, false)
              else IsDocument(c, t, v, true) || (IsDocument(c, t, v, false) && forall w :: !IsDocument(c, t, w, true))
  {
    hide ParseFields, ParseValue, SkipWs, IsDocument, OnlyBlanksAfter;
    var p := SkipWs(t, 0);
    if p < |t| {
      DocumentIs(c, t, v, false);
      DocumentIs(c, t, v, true);
      forall w
        ensures IsDocument(c, t, w, true) <==> OnlyBlanksAfter(t, ParseFields(c, t, p, 0, false, map[])) == Some(w)
      {
        DocumentIs(c, t, w, true);
      }
    } else {
      NoDocument(c, t, v);
    }
  }

  lemma NoDocument(c: Libc.Calls, t: Bytes, v: Value)
    requires SkipWs(t, 0) == |t|
    ensures !IsDocument(c, t, v, true) && !IsDocument(c, t, v, false)
  {
    hide SkipWs, ParseFields, ParseValue;
  }

  lemma DocumentIs(c: Libc.Calls, t: Bytes, v: Value, asMembers: bool)
    requires SkipWs(t, 0) < |t|
    ensures var p := SkipWs(t, 0);
            var r := if asMembers then ParseFields(c, t, p, 0, false, map[]) else ParseValue(c, t, p, 0);
            IsDocument(c, t, v, asMembers) <==> OnlyBlanksAfter(t, r) == Some(v)
  {
    hide ParseFields, ParseValue, SkipWs;
    var p := SkipWs(t, 0);
    var r := if asMembers then ParseFields(c, t, p, 0, false, map[]) else ParseValue(c, t, p, 0);
    if OnlyBlanksAfter(t, r) == Some(v) {
      var q := r.next;
      assert q <= |t| && SkipWs(t, q) == |t|;
    }
  }
}
