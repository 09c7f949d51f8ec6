/** The linked list as its callers see it: a sequence of (id, value) pairs, with ids of removed nodes
    queued for reuse (src/linked_list.cpp). */
module RecyclingLists {
  import opened Cells

  const ID_LIMIT: nat := 0x1_0000_0000

  type U32 = x: int | 0 <= x < ID_LIMIT

  /** A node id as a cell of the script, and back. */
  function Cell(id: U32): int {
    Low32(id)
  }

  function NodeId(cell: int): U32 {
    cell % ID_LIMIT
  }

  lemma CellAndBack(id: U32)
    ensures NodeId(Cell(id)) == id
  {
  }

  datatype Item = Item(id: U32, value: int)

  datatype List = List(
    items: seq<Item>,
    free: seq<U32>,       // free_ids_
    nextId: U32,
    drawn: nat)           // fresh ids drawn so far

  const Fresh := List([], [], 1, 0)

  // ---- Operations ----

  function Inc(x: U32): U32 {
    if x == ID_LIMIT - 1 then 0 else x + 1
  }

  /** The id the next push gets: the oldest recycled one, or a fresh one other than 0. */
  function NewId(l: List): U32 {
    if l.free != [] then l.free[0] else if l.nextId == 0 then 1 else l.nextId
  }

  function Draw(l: List): List {
    if l.free != [] then l.(free := l.free[1..]) else l.(nextId := Inc(NewId(l)), drawn := l.drawn + 1)
  }

  /** Index of the node with an id, or the length. */
  function Find(items: seq<Item>, id: U32): (k: nat)
    ensures k <= |items| && (k < |items| ==> items[k].id == id)
    ensures forall j :: 0 <= j < k ==> items[j].id != id
  {
    if items == [] || items[0].id == id then 0 else 1 + Find(items[1..], id)
  }

  lemma FoundId(items: seq<Item>, i: nat)
    requires i < |items|
    ensures Find(items, items[i].id) < |items| && (Distinct(items) ==> Find(items, items[i].id) == i)
  {
  }

  function Without(items: seq<Item>, k: nat): seq<Item>
    requires k < |items|
  {
    items[..k] + items[k + 1..]
  }

  function PushFront(l: List, value: int): List {
    Draw(l).(items := [Item(NewId(l), value)] + l.items)
  }

  function PushBack(l: List, value: int): List {
    Draw(l).(items := l.items + [Item(NewId(l), value)])
  }

  function DropAt(l: List, k: nat): List
    requires k < |l.items|
  {
    l.(items := Without(l.items, k), free := l.free + [l.items[k].id])
  }

  function PopFront(l: List): (List, int) {
    if l.items == [] then (l, 0) else (DropAt(l, 0), l.items[0].value)
  }

  function PopBack(l: List): (List, int) {
    if l.items == [] then (l, 0) else (DropAt(l, |l.items| - 1), l.items[|l.items| - 1].value)
  }

  function Remove(l: List, id: U32): List {
    var k := Find(l.items, id);
    if k == |l.items| then l else DropAt(l, k)
  }

  function MoveToFront(l: List, id: U32): List {
    var k := Find(l.items, id);
    if k == |l.items| then l else l.(items := [l.items[k]] + Without(l.items, k))
  }

  function MoveToBack(l: List, id: U32): List {
    var k := Find(l.items, id);
    if k == |l.items| then l else l.(items := Without(l.items, k) + [l.items[k]])
  }

  function SetValue(l: List, id: U32, value: int): List {
    var k := Find(l.items, id);
    if k == |l.items| then l else l.(items := l.items[k := Item(id, value)])
  }

  function GetValue(l: List, id: U32): int {
    var k := Find(l.items, id);
    if k == |l.items| then 0 else l.items[k].value
  }

  function First(l: List): U32 {
    if l.items == [] then 0 else l.items[0].id
  }

  function Last(l: List): U32 {
    if l.items == [] then 0 else l.items[|l.items| - 1].id
  }

  function NextOf(l: List, id: U32): U32 {
    var k := Find(l.items, id);
    if k + 1 >= |l.items| then 0 else l.items[k + 1].id
  }

  function PrevOf(l: List, id: U32): U32 {
    var k := Find(l.items, id);
    if k == |l.items| || k == 0 then 0 else l.items[k - 1].id
  }

  /** Clear forgets the recycled ids but not where fresh ones go on. */
  function Clear(l: List): List {
    l.(items := [], free := [])
  }

  datatype Action =
    | DoPushFront(value: int) | DoPushBack(value: int) | DoPopFront | DoPopBack | DoRemove(id: U32)
    | DoMoveToFront(id: U32) | DoMoveToBack(id: U32) | DoSetValue(id: U32, value: int) | DoClear

  function Next(l: List, a: Action): List {
    match a
    case DoPushFront(v) => PushFront(l, v)
    case DoPushBack(v) => PushBack(l, v)
    case DoPopFront => PopFront(l).0
    case DoPopBack => PopBack(l).0
    case DoRemove(id) => Remove(l, id)
    case DoMoveToFront(id) => MoveToFront(l, id)
    case DoMoveToBack(id) => MoveToBack(l, id)
    case DoSetValue(id, v) => SetValue(l, id, v)
    case DoClear => Clear(l)
  }

  // ---- Ids are never shared ----

  ghost predicate Distinct(items: seq<Item>) {
    forall i, j :: 0 <= i < j < |items| ==> items[i].id != items[j].id
  }

  ghost predicate NoRepeat(ids: seq<U32>) {
    forall i, j :: 0 <= i < j < |ids| ==> ids[i] != ids[j]
  }

  ghost predicate Apart(items: seq<Item>, free: seq<U32>) {
    forall i, j :: 0 <= i < |items| && 0 <= j < |free| ==> items[i].id != free[j]
  }

  /** Live ids and queued ids are nonzero, and while the fresh ids have not wrapped none is beyond the
      ones drawn. */
  ghost predicate Within(l: List) {
    && (forall i :: 0 <= i < |l.items| ==> l.items[i].id != 0)
    && (forall i :: 0 <= i < |l.free| ==> l.free[i] != 0)
    && (l.drawn < ID_LIMIT ==>
          && l.nextId == (l.drawn + 1) % ID_LIMIT
          && (forall i :: 0 <= i < |l.items| ==> l.items[i].id <= l.drawn)
          && (forall i :: 0 <= i < |l.free| ==> l.free[i] <= l.drawn))
  }

  ghost predicate Ok(l: List) {
    Distinct(l.items) && NoRepeat(l.free) && Apart(l.items, l.free) && Within(l)
  }

  predicate IsPush(a: Action) {
    a.DoPushFront? || a.DoPushBack?
  }

  /** Fresh ids stay new until all 2^32 - 1 have been drawn; a recycled one is always new. */
  lemma NewIdIsNew(l: List)
    requires Ok(l) && (l.free != [] || l.drawn < ID_LIMIT - 1)
    ensures NewId(l) != 0 && Find(l.items, NewId(l)) == |l.items|
  {
    assert forall i :: 0 <= i < |l.items| ==> l.items[i].id != NewId(l);
  }

  /** One draw later the count wraps past 0 to 1, and the push shares an id exactly when node 1 lives. */
  lemma WrapSharesOne(l: List)
    requires Ok(l) && l.free == [] && l.drawn == ID_LIMIT - 1
    ensures Find(l.items, NewId(l)) < |l.items| <==> exists i :: 0 <= i < |l.items| && l.items[i].id == 1
  {
    assert NewId(l) == 1;
  }

  lemma DrawRecycled(l: List)
    requires Ok(l) && l.free != []
    ensures var rest := l.free[1..]; NoRepeat(rest) && Apart(l.items, rest) && Within(l.(free := rest)) && l.free[0] !in rest
  {
    var rest := l.free[1..];
    assert forall j :: 0 <= j < |rest| ==> rest[j] == l.free[j + 1];
  }

  lemma DrawFresh(l: List)
    requires Within(l) && l.free == []
    ensures NewId(l) != 0 && Within(Draw(l)) && (Draw(l).drawn < ID_LIMIT ==> NewId(l) <= Draw(l).drawn)
  {
  }

  lemma DrawKeeps(l: List)
    requires Ok(l)
    ensures Ok(Draw(l))
    ensures NewId(l) != 0 && (Draw(l).drawn < ID_LIMIT ==> NewId(l) <= Draw(l).drawn)
    ensures forall j :: 0 <= j < |Draw(l).free| ==> Draw(l).free[j] != NewId(l)
  {
    if l.free != [] {
      DrawRecycled(l);
      assert l.free[0] in l.free;
    } else {
      DrawFresh(l);
    }
  }

  lemma PushKeeps(l: List, v: int)
    requires Ok(l) && Find(l.items, NewId(l)) == |l.items|
    ensures Ok(PushFront(l, v)) && Ok(PushBack(l, v))
  {
    hide Draw, NewId;
    DrawKeeps(l);
    DrawItems(l);
  }

  lemma DrawItems(l: List)
    ensures Draw(l).items == l.items
  {
  }

  lemma DropKeeps(l: List, k: nat)
    requires Ok(l) && k < |l.items|
    ensures Ok(DropAt(l, k))
  {
    var r := Without(l.items, k);
    assert forall i :: 0 <= i < |r| ==> r[i] == l.items[if i < k then i else i + 1];
  }

  /** Another arrangement of the same nodes keeps everything that is said about ids. */
  lemma MoveKeeps(l: List, k: nat)
    requires Ok(l) && k < |l.items|
    ensures Ok(l.(items := [l.items[k]] + Without(l.items, k)))
    ensures Ok(l.(items := Without(l.items, k) + [l.items[k]]))
  {
    hide Without;
    var n := |l.items|;
    WithoutAt(l.items, k);
    ArrangedKeeps(l, [l.items[k]] + Without(l.items, k), seq(n, i requires 0 <= i < n => if i == 0 then k else if i <= k then i - 1 else i));
    ArrangedKeeps(l, Without(l.items, k) + [l.items[k]], seq(n, i requires 0 <= i < n => if i == n - 1 then k else if i < k then i else i + 1));
  }

  lemma WithoutAt(items: seq<Item>, k: nat)
    requires k < |items|
    ensures var r := Without(items, k); |r| == |items| - 1 && forall i :: 0 <= i < |r| ==> r[i] == items[if i < k then i else i + 1]
  {
  }

  lemma ArrangedKeeps(l: List, items: seq<Item>, from: seq<int>)
    requires Ok(l) && |from| == |items| && (forall i :: 0 <= i < |items| ==> 0 <= from[i] < |l.items| && items[i] == l.items[from[i]])
    requires forall i, j :: 0 <= i < j < |items| ==> from[i] != from[j]
    ensures Ok(l.(items := items))
  {
    forall i, j | 0 <= i < j < |items|
      ensures items[i].id != items[j].id
    {
      assert from[i] != from[j];
    }
  }

  lemma StepKeeps(l: List, a: Action)
    requires Ok(l) && (IsPush(a) ==> Find(l.items, NewId(l)) == |l.items|)
    ensures Ok(Next(l, a))
  {
    hide Distinct, NoRepeat, Apart, Within, Draw, NewId, Without;
    match a
    case DoPushFront(v) => PushKeeps(l, v);
    case DoPushBack(v) => PushKeeps(l, v);
    case DoPopFront => if l.items != [] { DropKeeps(l, 0); }
    case DoPopBack => if l.items != [] { DropKeeps(l, |l.items| - 1); }
    case DoRemove(id) =>
      var k := Find(l.items, id);
      if k < |l.items| { DropKeeps(l, k); }
    case DoMoveToFront(id) =>
      var k := Find(l.items, id);
      if k < |l.items| { MoveKeeps(l, k); }
    case DoMoveToBack(id) =>
      var k := Find(l.items, id);
      if k < |l.items| { MoveKeeps(l, k); }
    case DoSetValue(id, v) => SetKeeps(l, id, v);
    case DoClear => ClearKeeps(l);
  }

  lemma SetKeeps(l: List, id: U32, v: int)
    requires Ok(l)
    ensures Ok(SetValue(l, id, v))
  {
  }

  lemma ClearKeeps(l: List)
    requires Ok(l)
    ensures Ok(Clear(l))
  {
  }

  // ---- Whole runs ----

  ghost predicate Run(run: seq<List>, acts: seq<Action>) {
    && |run| == |acts| + 1 && run[0] == Fresh
    && forall i :: 0 <= i < |acts| ==> run[i + 1] == Next(run[i], acts[i])
  }

  lemma DrawnUp(l: List, a: Action)
    ensures l.drawn <= Next(l, a).drawn
    ensures IsPush(a) && l.free == [] ==> Next(l, a).drawn == l.drawn + 1
  {
  }

  /** As long as no more than 2^32 - 1 fresh ids were drawn, live ids are distinct, nonzero and
      apart from the queue of ids for reuse, which has no repeats. */
  lemma {:induction false} IdsNeverShared(run: seq<List>, acts: seq<Action>, i: nat)
    requires Run(run, acts) && i < |run| && run[i].drawn < ID_LIMIT
    ensures Ok(run[i])
  {
    hide Ok, Next;
    if i == 0 {
      FreshOk();
    } else {
      var l, a := run[i - 1], acts[i - 1];
      assert run[i] == Next(l, a);
      DrawnUp(l, a);
      IdsNeverShared(run, acts, i - 1);
      if IsPush(a) { NewIdIsNew(l); }
      StepKeeps(l, a);
    }
  }

  lemma FreshOk()
    ensures Ok(Fresh)
  {
  }

  // ---- Removed ids are reused first ----

  /** Every id drawn is live or queued. Clear is what breaks this: it drops the queue. */
  predicate Accounted(l: List) {
    |l.items| + |l.free| == l.drawn
  }

  lemma StepAccounts(l: List, a: Action)
    requires Accounted(l) && !a.DoClear?
    ensures Accounted(Next(l, a))
  {
  }

  /** Without Clear, no id ever exceeds the greatest length the list has had. */
  lemma {:induction false} IdsBoundedByLength(run: seq<List>, acts: seq<Action>, i: nat, most: nat)
    requires Run(run, acts) && i < |run| && most < ID_LIMIT
    requires forall k :: 0 <= k < |acts| ==> !acts[k].DoClear?
    requires forall k :: 0 <= k <= i ==> |run[k].items| <= most
    ensures run[i].drawn <= most && Accounted(run[i])
    ensures forall k :: 0 <= k < |run[i].items| ==> run[i].items[k].id <= most
  {
    hide Next, Ok;
    DrawnWithin(run, acts, i, most);
    IdsNeverShared(run, acts, i);
    OkWithin(run[i]);
  }

  lemma OkWithin(l: List)
    requires Ok(l) && l.drawn < ID_LIMIT
    ensures forall k :: 0 <= k < |l.items| ==> l.items[k].id <= l.drawn
  {
  }

  lemma {:induction false} DrawnWithin(run: seq<List>, acts: seq<Action>, i: nat, most: nat)
    requires Run(run, acts) && i < |run|
    requires forall k :: 0 <= k < |acts| ==> !acts[k].DoClear?
    requires forall k :: 0 <= k <= i ==> |run[k].items| <= most
    ensures run[i].drawn <= most && Accounted(run[i])
  {
    if i > 0 {
      hide Next;
      DrawnWithin(run, acts, i - 1, most);
      StepAccounts(run[i - 1], acts[i - 1]);
      DrawnStep(run[i - 1], acts[i - 1]);
    }
  }

  lemma DrawnStep(l: List, a: Action)
    requires Accounted(l)
    ensures Next(l, a).drawn == l.drawn || Next(l, a).drawn == |Next(l, a).items|
  {
  }

  /** A list kept within a limit, except for one push, never gets an id beyond the limit plus one; in
      particular, as a cell, none is negative. */
  lemma IdInRange(l: List, max: nat)
    requires Ok(l) && Accounted(l) && |l.items| <= max < 0x7FFF_FFFF && l.drawn <= max + 1
    ensures 0 < NewId(l) <= max + 1 && Cell(NewId(l)) == NewId(l)
    ensures Find(l.items, NewId(l)) == |l.items| && Draw(l).drawn <= max + 1
  {
    NewIdIsNew(l);
    DrawKeeps(l);
  }

  lemma OkDistinct(l: List)
    requires Ok(l)
    ensures Distinct(l.items)
  {
  }
}
