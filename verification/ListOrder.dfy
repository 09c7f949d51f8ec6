/** What the operations of the linked list do to the order its callers see: first, last, next and
    previous node, and the value of each. */
module ListOrder {
  import opened RecyclingLists

  predicate Lives(l: List, id: U32) {
    Find(l.items, id) < |l.items|
  }

  /** Node by node the neighbours are those of the sequence. */
  lemma NeighboursAre(l: List, i: nat)
    requires Ok(l) && i < |l.items|
    ensures var id := l.items[i].id;
            && Lives(l, id) && id != 0 && GetValue(l, id) == l.items[i].value
            && NextOf(l, id) == (if i + 1 < |l.items| then l.items[i + 1].id else 0)
            && PrevOf(l, id) == (if i > 0 then l.items[i - 1].id else 0)
            && (First(l) == id <==> i == 0) && (Last(l) == id <==> i == |l.items| - 1)
  {
    hide Find;
    FoundId(l.items, i);
  }

  lemma LivesAt(l: List, id: U32) returns (i: nat)
    requires Lives(l, id)
    ensures i < |l.items| && l.items[i].id == id
  {
    i := Find(l.items, id);
  }

  /** Next and previous are each other's inverse, zero marks the ends, and unknown nodes have neither. */
  lemma NextUndoesPrevious(l: List, a: U32, b: U32)
    requires Ok(l) && a != 0 && b != 0
    ensures NextOf(l, a) == b <==> PrevOf(l, b) == a
    ensures Lives(l, a) ==> (NextOf(l, a) == 0 <==> a == Last(l)) && (PrevOf(l, a) == 0 <==> a == First(l))
    ensures !Lives(l, a) ==> NextOf(l, a) == 0 && PrevOf(l, a) == 0 && GetValue(l, a) == 0
  {
    hide Ok, Find;
    if Lives(l, a) {
      var i := LivesAt(l, a);
      NeighboursAre(l, i);
      if i + 1 < |l.items| { NeighboursAre(l, i + 1); }
      if i > 0 { NeighboursAre(l, i - 1); }
    }
    if Lives(l, b) {
      var j := LivesAt(l, b);
      NeighboursAre(l, j);
      if j > 0 { NeighboursAre(l, j - 1); }
    }
  }

  /** Every node but these keeps its value. */
  ghost predicate ValuesKept(l: List, after: List, except: U32) {
    forall x: U32 :: x != except ==> GetValue(after, x) == GetValue(l, x) && (Lives(after, x) <==> Lives(l, x))
  }

  lemma SameFind(a: seq<Item>, b: seq<Item>, x: U32)
    requires forall e: Item :: e in a && e.id == x ==> e in b
    ensures Find(a, x) < |a| ==> Find(b, x) < |b|
  {
    hide Find;
    var i := Find(a, x);
    if i < |a| {
      assert a[i] in b;
    }
  }

  /** The same nodes with the same values, apart from one. */
  lemma ValuesSame(l: List, after: List, except: U32)
    requires Distinct(l.items) && Distinct(after.items)
    requires forall e: Item :: e.id != except ==> (e in l.items <==> e in after.items)
    ensures ValuesKept(l, after, except)
  {
    hide Find;
    forall x: U32 | x != except
      ensures GetValue(after, x) == GetValue(l, x) && (Lives(after, x) <==> Lives(l, x))
    {
      SameFind(l.items, after.items, x);
      SameFind(after.items, l.items, x);
      var i, j := Find(l.items, x), Find(after.items, x);
      if i < |l.items| {
        assert l.items[i] in after.items;
        var k :| 0 <= k < |after.items| && after.items[k] == l.items[i];
        FoundId(after.items, k);
      }
    }
  }

  // ---- Pushing ----

  lemma PushFrontItems(l: List, v: int)
    requires Ok(l) && !Lives(l, NewId(l))
    ensures var a := PushFront(l, v); Ok(a) && a.items == [Item(NewId(l), v)] + l.items
  {
    hide Find, Ok, NewId, Draw;
    PushKeeps(l, v);
    DrawItems(l);
  }

  lemma PushFrontNext(l: List, a: List, item: Item, x: U32)
    requires Ok(l) && Ok(a) && a.items == [item] + l.items && Lives(l, x)
    ensures NextOf(a, x) == NextOf(l, x)
  {
    hide Find, Ok, NextOf, PrevOf;
    var i := LivesAt(l, x);
    NeighboursAre(l, i);
    NeighboursAre(a, i + 1);
  }

  lemma PushFrontSeen(l: List, v: int)
    requires Ok(l) && !Lives(l, NewId(l))
    ensures var a, id := PushFront(l, v), NewId(l);
            && Ok(a) && First(a) == id && GetValue(a, id) == v && NextOf(a, id) == First(l) && ValuesKept(l, a, id)
            && Last(a) == (if l.items == [] then id else Last(l))
            && forall x: U32 :: Lives(l, x) ==> NextOf(a, x) == NextOf(l, x)
  {
    hide Find, Ok, NewId, PushFront, Distinct, ValuesKept, NextOf, PrevOf, GetValue, Lives;
    var a, id := PushFront(l, v), NewId(l);
    PushFrontItems(l, v);
    NeighboursAre(a, 0);
    OkDistinct(l);
    OkDistinct(a);
    ValuesSame(l, a, id);
    forall x: U32 | Lives(l, x)
      ensures NextOf(a, x) == NextOf(l, x)
    {
      PushFrontNext(l, a, Item(id, v), x);
    }
  }

  lemma PushBackSeen(l: List, v: int)
    requires Ok(l) && !Lives(l, NewId(l))
    ensures var a, id := PushBack(l, v), NewId(l);
            && Ok(a) && Last(a) == id && GetValue(a, id) == v && PrevOf(a, id) == Last(l) && ValuesKept(l, a, id)
            && First(a) == (if l.items == [] then id else First(l))
            && forall x: U32 :: Lives(l, x) ==> PrevOf(a, x) == PrevOf(l, x)
  {
    hide Find, Ok, NewId, Draw, Distinct, ValuesKept;
    var a, id := PushBack(l, v), NewId(l);
    PushKeeps(l, v);
    DrawItems(l);
    NeighboursAre(a, |l.items|);
    OkDistinct(l);
    OkDistinct(a);
    assert a.items == l.items + [Item(id, v)];
    ValuesSame(l, a, id);
    forall x: U32 | Lives(l, x)
      ensures PrevOf(a, x) == PrevOf(l, x)
    {
      var i := LivesAt(l, x);
      NeighboursAre(l, i);
      NeighboursAre(a, i);
    }
  }

  // ---- Taking out ----

  lemma DropValues(l: List, k: nat)
    requires Ok(l) && k < |l.items|
    ensures var a, id := DropAt(l, k), l.items[k].id; Ok(a) && !Lives(a, id) && ValuesKept(l, a, id)
  {
    hide Find, Ok, Without, Distinct, ValuesKept;
    DropKeeps(l, k);
    OkDistinct(l);
    OkDistinct(DropAt(l, k));
    WithoutSeen(l.items, k);
    ValuesSame(l, DropAt(l, k), l.items[k].id);
    WithoutAt(l.items, k);
  }

  lemma DropEnds(l: List, k: nat)
    requires Ok(l) && k < |l.items|
    ensures var a, id := DropAt(l, k), l.items[k].id;
            && First(a) == (if First(l) == id then NextOf(l, id) else First(l))
            && Last(a) == (if Last(l) == id then PrevOf(l, id) else Last(l))
  {
    hide Find, Ok, Without, NextOf, PrevOf;
    WithoutAt(l.items, k);
    NeighboursAre(l, k);
  }

  lemma DropNext(l: List, k: nat, j: nat)
    requires Ok(l) && k < |l.items| && Ok(DropAt(l, k)) && j < |l.items| - 1
    ensures var a, id := DropAt(l, k), l.items[k].id;
            && |a.items| == |l.items| - 1
            && var x := a.items[j].id;
               NextOf(a, x) == if NextOf(l, x) == id then NextOf(l, id) else NextOf(l, x)
  {
    hide Find, Ok, Without, NextOf, PrevOf;
    var a, id := DropAt(l, k), l.items[k].id;
    WithoutAt(l.items, k);
    NeighboursAre(a, j);
    var i := if j < k then j else j + 1;
    NeighboursAre(l, i);
    NeighboursAre(l, k);
    if i + 1 < |l.items| && i + 1 != k { OtherId(l, i + 1, k); }
  }

  lemma OtherId(l: List, i: nat, k: nat)
    requires Ok(l) && i < |l.items| && k < |l.items| && i != k
    ensures l.items[i].id != l.items[k].id
  {
  }

  /** What taking out the node at k leaves: its neighbours meet, the others keep theirs. */
  lemma DropSeen(l: List, k: nat)
    requires Ok(l) && k < |l.items|
    ensures var a, id := DropAt(l, k), l.items[k].id;
            && Ok(a) && !Lives(a, id) && ValuesKept(l, a, id)
            && First(a) == (if First(l) == id then NextOf(l, id) else First(l))
            && Last(a) == (if Last(l) == id then PrevOf(l, id) else Last(l))
            && forall x: U32 :: Lives(a, x) ==>
                 NextOf(a, x) == (if NextOf(l, x) == id then NextOf(l, id) else NextOf(l, x))
  {
    hide Find, Ok, Without, NextOf, PrevOf, First, Last, ValuesKept, Lives;
    var a, id := DropAt(l, k), l.items[k].id;
    DropValues(l, k);
    DropEnds(l, k);
    WithoutAt(l.items, k);
    forall x: U32 | Lives(a, x)
      ensures NextOf(a, x) == if NextOf(l, x) == id then NextOf(l, id) else NextOf(l, x)
    {
      var j := LivesAt(a, x);
      DropNext(l, k, j);
    }
  }

  lemma WithoutSeen(items: seq<Item>, k: nat)
    requires Distinct(items) && k < |items|
    ensures forall e: Item :: e.id != items[k].id ==> (e in items <==> e in Without(items, k))
    ensures Find(Without(items, k), items[k].id) == |items| - 1
  {
    hide Find;
    WithoutAt(items, k);
    var r := Without(items, k);
    forall e: Item | e.id != items[k].id && e in items
      ensures e in r
    {
      var i :| 0 <= i < |items| && items[i] == e;
      assert r[if i < k then i else i - 1] == e;
    }
  }

  lemma PopFrontSeen(l: List)
    requires Ok(l)
    ensures var (a, v), id := PopFront(l), First(l);
            if l.items == [] then (a, v) == (l, 0)
            else
              && v == GetValue(l, id) && !Lives(a, id) && ValuesKept(l, a, id) && First(a) == NextOf(l, id)
              && forall x: U32 :: Lives(a, x) ==> NextOf(a, x) == NextOf(l, x)
  {
    hide Find, Ok, DropAt;
    if l.items != [] {
      DropSeen(l, 0);
      NeighboursAre(l, 0);
      var a, id := PopFront(l).0, First(l);
      forall x: U32 | Lives(a, x)
        ensures NextOf(a, x) == NextOf(l, x)
      {
        assert Lives(l, x);
        var i := LivesAt(l, x);
        NeighboursAre(l, i);
        if i + 1 < |l.items| { NeighboursAre(l, i + 1); }
      }
    }
  }

  lemma PopBackSeen(l: List)
    requires Ok(l)
    ensures var (a, v), id := PopBack(l), Last(l);
            if l.items == [] then (a, v) == (l, 0)
            else v == GetValue(l, id) && !Lives(a, id) && ValuesKept(l, a, id) && Last(a) == PrevOf(l, id) && (|l.items| > 1 ==> First(a) == First(l))
  {
    hide Find, Ok, DropAt;
    if l.items != [] {
      var n := |l.items| - 1;
      DropSeen(l, n);
      NeighboursAre(l, n);
      NeighboursAre(l, 0);
    }
  }

  lemma RemoveSeen(l: List, id: U32)
    requires Ok(l)
    ensures var a := Remove(l, id);
            if !Lives(l, id) then a == l
            else
              && !Lives(a, id) && ValuesKept(l, a, id)
              && First(a) == (if First(l) == id then NextOf(l, id) else First(l))
              && Last(a) == (if Last(l) == id then PrevOf(l, id) else Last(l))
              && forall x: U32 :: Lives(a, x) ==> NextOf(a, x) == (if NextOf(l, x) == id then NextOf(l, id) else NextOf(l, x))
  {
    hide Find, Ok, DropAt;
    if Lives(l, id) {
      DropSeen(l, Find(l.items, id));
    }
  }

  // ---- Moving ----

  /** Another arrangement of the same nodes. */
  lemma SameNodes(l: List, after: List)
    requires Ok(l) && Ok(after) && forall e: Item :: e in l.items <==> e in after.items
    ensures forall x: U32 :: GetValue(after, x) == GetValue(l, x) && (Lives(after, x) <==> Lives(l, x))
  {
    hide Find, Ok;
    OkDistinct(l);
    OkDistinct(after);
    ValuesSame(l, after, 0);
    NoZero(l);
    NoZero(after);
  }

  lemma NoZero(l: List)
    requires Ok(l)
    ensures !Lives(l, 0) && GetValue(l, 0) == 0
  {
  }

  lemma MovedNodes(items: seq<Item>, k: nat)
    requires k < |items|
    ensures forall e: Item :: e in items <==> e in [items[k]] + Without(items, k)
    ensures forall e: Item :: e in items <==> e in Without(items, k) + [items[k]]
  {
    assert items == items[..k] + [items[k]] + items[k + 1..];
  }

  lemma NextOfFirst(d: List, a: List, item: Item)
    requires Ok(a) && a.items == [item] + d.items
    ensures NextOf(a, item.id) == First(d)
  {
    hide Find, Ok;
    NeighboursAre(a, 0);
  }

  /** A node moved to the front is first and in front of what was first, its old neighbours meet, and
      nothing else changes. */
  lemma MoveToFrontSeen(l: List, id: U32)
    requires Ok(l)
    ensures var a := MoveToFront(l, id);
            if !Lives(l, id) then a == l
            else
              && First(a) == id && (forall x: U32 :: GetValue(a, x) == GetValue(l, x) && (Lives(a, x) <==> Lives(l, x)))
              && NextOf(a, id) == (if First(l) == id then NextOf(l, id) else First(l))
              && forall x: U32 :: Lives(l, x) && x != id ==> NextOf(a, x) == (if NextOf(l, x) == id then NextOf(l, id) else NextOf(l, x))
  {
    hide Find, Ok, Without, NextOf, PrevOf, GetValue, First;
    if Lives(l, id) {
      var k := Find(l.items, id);
      var a, d := MoveToFront(l, id), DropAt(l, k);
      MoveKeeps(l, k);
      MovedNodes(l.items, k);
      SameNodes(l, a);
      DropSeen(l, k);
      NeighboursAre(a, 0);
      NextOfFirst(d, a, l.items[k]);
      forall x: U32 | Lives(l, x) && x != id
        ensures NextOf(a, x) == if NextOf(l, x) == id then NextOf(l, id) else NextOf(l, x)
      {
        assert Lives(d, x);
        PushFrontNext(d, a, l.items[k], x);
      }
    }
  }

  lemma MoveToBackSeen(l: List, id: U32)
    requires Ok(l)
    ensures var a := MoveToBack(l, id);
            if !Lives(l, id) then a == l
            else
              && Last(a) == id && (forall x: U32 :: GetValue(a, x) == GetValue(l, x) && (Lives(a, x) <==> Lives(l, x)))
              && PrevOf(a, id) == (if Last(l) == id then PrevOf(l, id) else Last(l))
              && forall x: U32 :: Lives(l, x) && x != id && x != PrevOf(a, id) ==> NextOf(a, x) == (if NextOf(l, x) == id then NextOf(l, id) else NextOf(l, x))
  {
    hide Find, Ok, Without, NextOf, PrevOf;
    if Lives(l, id) {
      var k := Find(l.items, id);
      var a, d := MoveToBack(l, id), DropAt(l, k);
      MoveKeeps(l, k);
      MovedNodes(l.items, k);
      SameNodes(l, a);
      DropSeen(l, k);
      WithoutAt(l.items, k);
      NeighboursAre(a, |l.items| - 1);
      forall x: U32 | Lives(l, x) && x != id && x != PrevOf(a, id)
        ensures NextOf(a, x) == if NextOf(l, x) == id then NextOf(l, id) else NextOf(l, x)
      {
        assert Lives(d, x);
        var j := LivesAt(d, x);
        NeighboursAre(d, j);
        NeighboursAre(a, j);
      }
    }
  }

  lemma SetValueSeen(l: List, id: U32, v: int)
    requires Ok(l)
    ensures var a := SetValue(l, id, v);
            && First(a) == First(l) && (Lives(l, id) ==> GetValue(a, id) == v)
            && forall x: U32 :: (Lives(a, x) <==> Lives(l, x)) && NextOf(a, x) == NextOf(l, x) && (x != id ==> GetValue(a, x) == GetValue(l, x))
  {
    hide Find, Ok;
    var a := SetValue(l, id, v);
    SameIds(l, a, id);
    forall x: U32
      ensures (Lives(a, x) <==> Lives(l, x)) && NextOf(a, x) == NextOf(l, x) && (x != id ==> GetValue(a, x) == GetValue(l, x))
    {
      SameIds(l, a, x);
    }
  }

  lemma SameIds(l: List, a: List, x: U32)
    requires |a.items| == |l.items| && forall i :: 0 <= i < |l.items| ==> a.items[i].id == l.items[i].id
    ensures Find(a.items, x) == Find(l.items, x)
  {
    hide Find;
    var i, j := Find(a.items, x), Find(l.items, x);
    assert i < |a.items| ==> l.items[i].id == x;
    assert j < |l.items| ==> a.items[j].id == x;
  }

  // ---- Ids in order ----

  /** The id an operation gives back, if it does. */
  function GivesBack(l: List, a: Action): seq<U32> {
    match a
    case DoPopFront => if l.items == [] then [] else [First(l)]
    case DoPopBack => if l.items == [] then [] else [Last(l)]
    case DoRemove(id) => if Lives(l, id) then [id] else []
    case _ => []
  }

  /** The recycled id an operation takes, if it does. */
  function TakesAgain(l: List, a: Action): seq<U32> {
    if IsPush(a) && l.free != [] then [NewId(l)] else []
  }

  ghost function GivenBack(run: seq<List>, acts: seq<Action>, i: nat): seq<U32>
    requires i <= |acts| < |run|
  {
    if i == 0 || acts[i - 1].DoClear? then [] else GivenBack(run, acts, i - 1) + GivesBack(run[i - 1], acts[i - 1])
  }

  ghost function TakenAgain(run: seq<List>, acts: seq<Action>, i: nat): seq<U32>
    requires i <= |acts| < |run|
  {
    if i == 0 || acts[i - 1].DoClear? then [] else TakenAgain(run, acts, i - 1) + TakesAgain(run[i - 1], acts[i - 1])
  }

  lemma FreeStep(l: List, a: Action)
    requires !a.DoClear?
    ensures l.free + GivesBack(l, a) == TakesAgain(l, a) + Next(l, a).free
  {
    hide Find;
    if IsPush(a) && l.free != [] {
      assert l.free == [l.free[0]] + l.free[1..];
    }
  }

  /** Over every run ids are used again in the order in which they were given back, since the list was last cleared. */
  lemma {:induction false} RecycledInOrder(run: seq<List>, acts: seq<Action>, i: nat)
    requires Run(run, acts) && i <= |acts|
    ensures GivenBack(run, acts, i) == TakenAgain(run, acts, i) + run[i].free
  {
    hide GivesBack, TakesAgain;
    if i > 0 && !acts[i - 1].DoClear? {
      hide Next;
      RecycledInOrder(run, acts, i - 1);
      FreeStep(run[i - 1], acts[i - 1]);
      Passed(GivenBack(run, acts, i - 1), TakenAgain(run, acts, i - 1), run[i - 1].free, GivesBack(run[i - 1], acts[i - 1]),
             TakesAgain(run[i - 1], acts[i - 1]), run[i].free);
    }
  }

  lemma Passed(given: seq<U32>, taken: seq<U32>, free: seq<U32>, more: seq<U32>, again: seq<U32>, left: seq<U32>)
    requires given == taken + free && free + more == again + left
    ensures given + more == taken + again + left
  {
    assert given + more == taken + (free + more);
  }
}
