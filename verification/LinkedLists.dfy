/** The list as the code keeps it: nodes in a ring around a sentinel and a map from ids to nodes. */
module LinkedLists {
  import opened RecyclingLists

  class Node {
    var value: int
    var prev: Node
    var next: Node
    var id: U32

    constructor (value: int, id: U32)
      ensures this.value == value && this.id == id
    {
      this.value, this.id := value, id;
      prev, next := this, this;
    }
  }

  // ---- The ring ----

  function Up(i: nat, n: nat): nat
    requires i < n
  {
    if i + 1 < n then i + 1 else 0
  }

  ghost predicate Simple(ring: seq<Node>) {
    forall i, j :: 0 <= i < j < |ring| ==> ring[i] != ring[j]
  }

  ghost predicate Linked(ring: seq<Node>)
    reads ring`next, ring`prev
  {
    forall i :: 0 <= i < |ring| ==> ring[i].next == ring[Up(i, |ring|)] && ring[Up(i, |ring|)].prev == ring[i]
  }

  ghost predicate Ring(ring: seq<Node>)
    reads ring`next, ring`prev
  {
    ring != [] && Simple(ring) && Linked(ring)
  }

  ghost function Inserted(ring: seq<Node>, k: nat, node: Node): (r: seq<Node>)
    requires k <= |ring|
    ensures |r| == |ring| + 1 && (k > 0 ==> r[0] == ring[0])
    ensures forall n :: n in r ==> n == node || n in ring
  {
    ring[..k] + [node] + ring[k..]
  }

  ghost function Cut(ring: seq<Node>, k: nat): (r: seq<Node>)
    requires k < |ring|
    ensures |r| == |ring| - 1 && (k > 0 ==> r[0] == ring[0])
    ensures forall n :: n in r ==> n in ring
  {
    ring[..k] + ring[k + 1..]
  }

  lemma NextAndPrev(ring: seq<Node>, k: nat)
    requires Ring(ring) && k < |ring|
    ensures ring[k].next == ring[Up(k, |ring|)] && ring[Up(k, |ring|)].prev == ring[k]
  {
  }

  lemma InsertedAt(ring: seq<Node>, k: nat, node: Node)
    requires Simple(ring) && k <= |ring| && node !in ring
    ensures var r := Inserted(ring, k, node);
            && |r| == |ring| + 1 && Simple(r) && r[k] == node
            && (forall i {:trigger r[i]} :: 0 <= i < k ==> r[i] == ring[i])
            && (forall i {:trigger r[i]} :: k < i < |r| ==> r[i] == ring[i - 1])
  {
  }

  lemma CutAt(ring: seq<Node>, k: nat)
    requires Simple(ring) && k < |ring|
    ensures var r := Cut(ring, k);
            && |r| == |ring| - 1 && Simple(r) && ring[k] !in r
            && (forall i {:trigger r[i]} :: 0 <= i < k ==> r[i] == ring[i])
            && (forall i {:trigger r[i]} :: k <= i < |r| ==> r[i] == ring[i + 1])
  {
  }

  /** Puts a node into the ring before the k-th, or last when k is the length. */
  method InsertBefore(ghost ring: seq<Node>, ghost k: nat, pos: Node, node: Node)
    requires Ring(ring) && 0 < k <= |ring| && pos == ring[if k < |ring| then k else 0] && node !in ring
    modifies node`prev, node`next, pos`prev, pos.prev`next
    ensures Ring(Inserted(ring, k, node))
  {
    hide Inserted;
    ghost var n := |ring|;
    ghost var r := Inserted(ring, k, node);
    InsertedAt(ring, k, node);
    assert ring[Up(k - 1, n)] == pos && pos.prev == ring[k - 1];
    node.prev := pos.prev;
    node.next := pos;
    pos.prev.next := node;
    pos.prev := node;
    forall i | 0 <= i <= n
      ensures r[i].next == r[Up(i, n + 1)] && r[Up(i, n + 1)].prev == r[i]
    {
      if i < k - 1 {
        assert Up(i, n) == i + 1;
      } else if i > k {
        assert r[Up(i, n + 1)] == ring[Up(i - 1, n)];
      }
    }
  }

  /** Takes the k-th node out of the ring; its own links stay as they were. */
  method Unlink(ghost ring: seq<Node>, ghost k: nat, node: Node)
    requires Ring(ring) && 0 < k < |ring| && node == ring[k]
    modifies node.prev`next, node.next`prev
    ensures Ring(Cut(ring, k))
  {
    hide Cut;
    ghost var n := |ring|;
    ghost var r := Cut(ring, k);
    CutAt(ring, k);
    assert ring[Up(k - 1, n)] == node && node.prev == ring[k - 1] && node.next == ring[Up(k, n)];
    node.prev.next := node.next;
    node.next.prev := node.prev;
    forall i | 0 <= i < n - 1
      ensures r[i].next == r[Up(i, n - 1)] && r[Up(i, n - 1)].prev == r[i]
    {
      if i < k - 1 {
        assert Up(i, n) == i + 1;
      } else if i >= k {
        assert r[Up(i, n - 1)] == ring[Up(i + 1, n)];
      }
    }
  }

  // ---- The map from ids to nodes ----

  /** The map and the ring agree in both directions. */
  ghost predicate Mapped(nodes: map<U32, Node>, ring: seq<Node>, items: seq<Item>) {
    && |ring| == |items| + 1
    && (forall i :: 0 <= i < |items| ==> items[i].id in nodes && nodes[items[i].id] == ring[i + 1])
    && (forall id :: id in nodes ==> Find(items, id) < |items|)
  }

  /** The nodes carry the ids and values. */
  ghost predicate Labelled(ring: seq<Node>, items: seq<Item>)
    reads ring`id, ring`value
  {
    && |ring| == |items| + 1
    && forall i :: 0 <= i < |items| ==> ring[i + 1].id == items[i].id && ring[i + 1].value == items[i].value
  }

  ghost function Placed(items: seq<Item>, k: nat, item: Item): (r: seq<Item>)
    requires k <= |items|
    ensures |r| == |items| + 1
  {
    items[..k] + [item] + items[k..]
  }

  lemma LabelledInsert(ring: seq<Node>, items: seq<Item>, k: nat, node: Node)
    requires Labelled(ring, items) && k <= |items|
    ensures Labelled(Inserted(ring, k + 1, node), Placed(items, k, Item(node.id, node.value)))
  {
    var r, t := Inserted(ring, k + 1, node), Placed(items, k, Item(node.id, node.value));
    assert forall i :: 0 <= i < |t| && i != k ==>
      t[i] == items[if i < k then i else i - 1] && r[i + 1] == ring[if i < k then i + 1 else i];
  }

  lemma LabelledCut(ring: seq<Node>, items: seq<Item>, k: nat)
    requires Labelled(ring, items) && k < |items|
    ensures Labelled(Cut(ring, k + 1), Without(items, k))
  {
    var r, t := Cut(ring, k + 1), Without(items, k);
    assert forall i :: 0 <= i < |t| ==> t[i] == items[if i < k then i else i + 1] && r[i + 1] == ring[if i < k then i + 1 else i + 2];
  }

  lemma FoundIn(items: seq<Item>, i: nat)
    requires i < |items|
    ensures Find(items, items[i].id) < |items|
  {
  }

  lemma MappedInsert(nodes: map<U32, Node>, ring: seq<Node>, items: seq<Item>, k: nat, node: Node, item: Item)
    requires Mapped(nodes, ring, items) && k <= |items| && Find(items, item.id) == |items|
    ensures Mapped(nodes[item.id := node], Inserted(ring, k + 1, node), Placed(items, k, item))
  {
    hide Find;
    var r, t := Inserted(ring, k + 1, node), Placed(items, k, item);
    forall i | 0 <= i < |t|
      ensures t[i].id in nodes[item.id := node] && nodes[item.id := node][t[i].id] == r[i + 1]
    {
      if i < k {
        assert t[i] == items[i] && r[i + 1] == ring[i + 1];
      } else if i > k {
        assert t[i] == items[i - 1] && r[i + 1] == ring[i];
      }
    }
    forall id | id in nodes[item.id := node]
      ensures Find(t, id) < |t|
    {
      if id == item.id {
        FoundIn(t, k);
      } else {
        var i := Find(items, id);
        FoundIn(t, if i < k then i else i + 1);
      }
    }
  }

  lemma MappedCut(nodes: map<U32, Node>, ring: seq<Node>, items: seq<Item>, k: nat)
    requires Mapped(nodes, ring, items) && Distinct(items) && k < |items|
    ensures Mapped(nodes - {items[k].id}, Cut(ring, k + 1), Without(items, k))
  {
    hide Find;
    var r, t := Cut(ring, k + 1), Without(items, k);
    forall i | 0 <= i < |t|
      ensures t[i].id in nodes - {items[k].id} && nodes[t[i].id] == r[i + 1]
    {
      var j := if i < k then i else i + 1;
      assert t[i] == items[j] && r[i + 1] == ring[j + 1];
    }
    forall id | id in nodes - {items[k].id}
      ensures Find(t, id) < |t|
    {
      var i := Find(items, id);
      FoundIn(t, if i < k then i else i - 1);
    }
  }

  lemma MappedAt(nodes: map<U32, Node>, ring: seq<Node>, items: seq<Item>, k: nat)
    requires Mapped(nodes, ring, items) && k < |items|
    ensures |ring| == |items| + 1 && items[k].id in nodes && nodes[items[k].id] == ring[k + 1]
  {
  }

  lemma MappedMove(nodes: map<U32, Node>, ring: seq<Node>, items: seq<Item>, k: nat, at: nat)
    requires Mapped(nodes, ring, items) && Distinct(items) && k < |items| && at < |items|
    ensures Mapped(nodes, Inserted(Cut(ring, k + 1), at + 1, ring[k + 1]), Placed(Without(items, k), at, items[k]))
  {
    hide Find, Mapped, Inserted, Cut, Placed;
    var id := items[k].id;
    MappedAt(nodes, ring, items, k);
    MappedCut(nodes, ring, items, k);
    var t := Without(items, k);
    assert forall i :: 0 <= i < |t| ==> t[i] == items[if i < k then i else i + 1];
    assert Find(t, id) == |t|;
    MappedInsert(nodes - {id}, Cut(ring, k + 1), t, at, ring[k + 1], items[k]);
    assert (nodes - {id})[id := ring[k + 1]] == nodes;
  }

  ghost function Ids(items: seq<Item>): set<U32> {
    set i | 0 <= i < |items| :: items[i].id
  }

  lemma MapKeys(nodes: map<U32, Node>, ring: seq<Node>, items: seq<Item>)
    requires Mapped(nodes, ring, items)
    ensures nodes.Keys == Ids(items)
  {
    hide Find;
    forall id | id in nodes
      ensures id in Ids(items)
    {
      assert items[Find(items, id)].id in Ids(items);
    }
  }

  /** Distinct nonzero ids: there are as many as nodes, and fewer than 2^32. */
  lemma IdsOf(items: seq<Item>)
    requires Distinct(items) && forall i :: 0 <= i < |items| ==> items[i].id != 0
    ensures |Ids(items)| == |items| < ID_LIMIT
  {
    CountIds(items);
    Below(Ids(items), ID_LIMIT);
  }

  lemma {:induction false} CountIds(items: seq<Item>)
    requires Distinct(items)
    ensures |Ids(items)| == |items|
  {
    if items != [] {
      var n := |items| - 1;
      CountIds(items[..n]);
      assert Ids(items) == Ids(items[..n]) + {items[n].id};
      assert items[n].id !in Ids(items[..n]);
    }
  }

  lemma {:induction false} Below(ids: set<U32>, n: nat)
    requires 0 < n && forall x :: x in ids ==> 0 < x < n
    ensures |ids| < n
  {
    if n > 1 {
      Below(ids - {n - 1}, n - 1);
    } else {
      assert ids == {};
    }
  }

  /** The values of a list under the ids 1, 2, and so on. */
  ghost function Numbered(items: seq<Item>): seq<Item>
    requires |items| < ID_LIMIT
  {
    seq(|items|, i requires 0 <= i < |items| => Item(i + 1, items[i].value))
  }

  lemma NumberedAre(items: seq<Item>)
    ensures |items| < ID_LIMIT ==>
              |Numbered(items)| == |items| && forall i :: 0 <= i < |items| ==> Numbered(items)[i].id == i + 1 && Numbered(items)[i].value == items[i].value
  {
  }

  lemma NoneNumbered()
    ensures Numbered([]) == []
  {
  }

  lemma CountOk(l: List)
    requires Ok(l)
    ensures |l.items| < ID_LIMIT
  {
    IdsOf(l.items);
  }

  lemma NumberedMore(items: seq<Item>, i: nat)
    requires i < |items| < ID_LIMIT
    ensures Numbered(items[..i + 1]) == Numbered(items[..i]) + [Item(i + 1, items[i].value)]
  {
  }

  lemma NewIdIsNext(l: List)
    requires Ok(l) && l.free == [] && l.drawn < ID_LIMIT - 1
    ensures NewId(l) == l.drawn + 1 && Draw(l).drawn == l.drawn + 1 && Draw(l).free == []
  {
  }

  class LinkedList {
    const sentinel: Node
    var nextId: U32
    var freeIds: seq<U32>
    var nodes: map<U32, Node>
    ghost var ring: seq<Node>       // the sentinel, then the nodes in order
    ghost var items: seq<Item>
    ghost var drawn: nat

    ghost function View(): List
      reads this
    {
      List(items, freeIds, nextId, drawn)
    }

    ghost function Repr(): set<Node>
      reads this
    {
      set n | n in ring
    }

    ghost predicate Wired()
      reads this, ring
    {
      |ring| == |items| + 1 && ring[0] == sentinel && Ring(ring) && Labelled(ring, items) && Mapped(nodes, ring, items)
    }

    ghost predicate Valid()
      reads this, ring
    {
      Wired() && Ok(View())
    }

    constructor ()
      ensures Valid() && View() == Fresh && fresh(Repr())
    {
      sentinel := new Node(0, 0);
      nextId, freeIds, nodes := 1, [], map[];
      items, drawn := [], 0;
      new;
      sentinel.prev, sentinel.next := sentinel, sentinel;
      ring := [sentinel];
      FreshOk();
    }

    method FindNode(id: U32) returns (node: Node?)
      requires Valid()
      ensures node == null <==> Find(items, id) == |items|
      ensures node != null ==> node == ring[Find(items, id) + 1] && node.id == id
    {
      node := if id in nodes then nodes[id] else null;
      if id in nodes {
        assert items[Find(items, id)].id == id;
      }
    }

    method NextId() returns (id: U32)
      modifies this`freeIds, this`nextId, this`drawn
      ensures id == NewId(old(View())) && View() == Draw(old(View()))
    {
      if freeIds != [] {
        id := freeIds[0];
        freeIds := freeIds[1..];
        return;
      }
      drawn := drawn + 1;
      id := nextId;
      nextId := Inc(nextId);
      if id == 0 {
        id := nextId;
        nextId := Inc(nextId);
      }
    }

    /** A push at index k: before the node that is there, or last. */
    method PushAt(ghost k: nat, pos: Node, value: int) returns (id: U32)
      requires Wired() && k <= |items| && pos == ring[if k < |items| then k + 1 else 0]
      requires Find(items, NewId(View())) == |items|
      modifies this, Repr()
      ensures id == NewId(old(View()))
      ensures View() == Draw(old(View())).(items := Placed(old(items), k, Item(id, value)))
      ensures Wired()
      ensures fresh(Repr() - old(Repr()))
    {
      hide Find, Draw, NewId, Mapped, Labelled, Simple, Linked, Inserted, Placed;
      NextAndPrev(ring, k);
      id := NextId();
      var node := new Node(value, id);
      InsertBefore(ring, k + 1, pos, node);
      LabelledInsert(ring, items, k, node);
      MappedInsert(nodes, ring, items, k, node, Item(id, value));
      nodes := nodes[id := node];
      ring := Inserted(ring, k + 1, node);
      items := Placed(items, k, Item(id, value));
    }

    method PushFront(value: int) returns (id: U32)
      requires Valid() && Find(items, NewId(View())) == |items|
      modifies this, Repr()
      ensures Valid() && View() == RecyclingLists.PushFront(old(View()), value) && id == NewId(old(View()))
      ensures fresh(Repr() - old(Repr()))
    {
      hide Ok, Find, Draw, NewId, Mapped, Labelled;
      assert ring[Up(0, |ring|)] == sentinel.next;
      PushKeeps(View(), value);
      DrawItems(View());
      id := PushAt(0, sentinel.next, value);
      assert Placed(old(items), 0, Item(id, value)) == [Item(id, value)] + old(items);
    }

    method PushBack(value: int) returns (id: U32)
      requires Valid() && Find(items, NewId(View())) == |items|
      modifies this, Repr()
      ensures Valid() && View() == RecyclingLists.PushBack(old(View()), value) && id == NewId(old(View()))
      ensures fresh(Repr() - old(Repr()))
    {
      hide Ok, Find, Draw, NewId, Labelled;
      PushKeeps(View(), value);
      DrawItems(View());
      id := PushAt(|items|, sentinel, value);
      assert Placed(old(items), |old(items)|, Item(id, value)) == old(items) + [Item(id, value)];
    }

    /** Takes out the node at index k and queues its id. */
    method Drop(ghost k: nat, node: Node)
      requires Wired() && Distinct(items) && k < |items| && node == ring[k + 1]
      modifies this, Repr()
      ensures Wired() && View() == DropAt(old(View()), k)
      ensures Repr() <= old(Repr())
    {
      hide Find, Mapped, Simple, Linked, Cut, Without;
      NextAndPrev(ring, k);
      NextAndPrev(ring, k + 1);
      NodeOf(k);
      Unlink(ring, k + 1, node);
      LabelledCut(ring, items, k);
      MappedCut(nodes, ring, items, k);
      nodes := nodes - {node.id};
      freeIds := freeIds + [node.id];
      ring := Cut(ring, k + 1);
      items := Without(items, k);
    }

    lemma NodeOf(k: nat)
      requires Wired() && k < |items|
      ensures ring[k + 1].id == items[k].id && ring[k + 1].value == items[k].value && items[k].id in nodes
      ensures ring[k + 1] != sentinel
    {
    }

    lemma EmptyMap()
      requires Wired()
      ensures nodes == map[] <==> items == []
    {
      if items != [] {
        NodeOf(0);
      }
    }

    method PopFront() returns (value: int)
      requires Valid()
      modifies this, Repr()
      ensures Valid() && (View(), value) == RecyclingLists.PopFront(old(View()))
      ensures Repr() <= old(Repr())
    {
      hide Distinct, NoRepeat, Apart, Within, Ring, Labelled, Mapped;
      EmptyMap();
      if nodes == map[] { return 0; }
      NextAndPrev(ring, 0);
      var node := sentinel.next;
      value := node.value;
      NodeOf(0);
      DropKeeps(View(), 0);
      Drop(0, node);
    }

    method PopBack() returns (value: int)
      requires Valid()
      modifies this, Repr()
      ensures Valid() && (View(), value) == RecyclingLists.PopBack(old(View()))
      ensures Repr() <= old(Repr())
    {
      hide Distinct, NoRepeat, Apart, Within, Ring, Labelled, Mapped;
      EmptyMap();
      if nodes == map[] { return 0; }
      NextAndPrev(ring, |items|);
      var node := sentinel.prev;
      value := node.value;
      NodeOf(|items| - 1);
      DropKeeps(View(), |items| - 1);
      Drop(|items| - 1, node);
    }

    method Remove(id: U32) returns (value: int)
      requires Valid()
      modifies this, Repr()
      ensures Valid() && View() == RecyclingLists.Remove(old(View()), id) && value == RecyclingLists.GetValue(old(View()), id)
      ensures Repr() <= old(Repr())
    {
      hide Distinct, NoRepeat, Apart, Within, Ring, Labelled, Mapped, Find;
      var node := FindNode(id);
      if node == null { return 0; }
      ghost var k := Find(items, id);
      value := node.value;
      NodeOf(k);
      DropKeeps(View(), k);
      Drop(k, node);
    }

    /** Takes out the node at index k and puts it back at the front or at the back. */
    method Relink(ghost k: nat, node: Node, front: bool)
      requires Wired() && Distinct(items) && k < |items| && node == ring[k + 1]
      modifies Repr(), this`ring, this`items
      ensures Wired()
      ensures View() == old(View()).(items := Placed(Without(old(items), k), if front then 0 else |old(items)| - 1, old(items)[k]))
      ensures Repr() <= old(Repr())
    {
      hide Find, Mapped, Simple, Linked, Cut, Without, Placed, Inserted;
      ghost var at := if front then 0 else |items| - 1;
      NextAndPrev(ring, k);
      NextAndPrev(ring, k + 1);
      NodeOf(k);
      CutHere(ring, k + 1);
      ghost var rest := Cut(ring, k + 1);
      Unlink(ring, k + 1, node);
      NextAndPrev(rest, at);
      assert rest[at] in rest && rest[Up(at, |rest|)] in rest;
      InsertBefore(rest, at + 1, if front then sentinel.next else sentinel, node);
      LabelledCut(ring, items, k);
      LabelledInsert(rest, Without(items, k), at, node);
      MappedMove(nodes, ring, items, k, at);
      ring := Inserted(rest, at + 1, node);
      items := Placed(Without(items, k), at, items[k]);
    }

    static lemma CutHere(r: seq<Node>, k: nat)
      requires Ring(r) && k < |r|
      ensures r[k] !in Cut(r, k)
    {
      CutAt(r, k);
    }

    method MoveToFront(id: U32)
      requires Valid()
      modifies this, Repr()
      ensures Valid() && View() == RecyclingLists.MoveToFront(old(View()), id)
      ensures Repr() <= old(Repr())
    {
      hide Distinct, NoRepeat, Apart, Within, Linked, Labelled, Mapped, Find;
      var node := FindNode(id);
      NextAndPrev(ring, 0);
      ghost var k := Find(items, id);
      if node == null || node == sentinel.next {
        assert node != null ==> k == 0;
        assert k == 0 && items != [] ==> [items[0]] + Without(items, 0) == items;
        return;
      }
      MoveKeeps(View(), k);
      Relink(k, node, true);
      assert items == [old(items)[k]] + Without(old(items), k);
    }

    method MoveToBack(id: U32)
      requires Valid()
      modifies this, Repr()
      ensures Valid() && View() == RecyclingLists.MoveToBack(old(View()), id)
      ensures Repr() <= old(Repr())
    {
      hide Distinct, NoRepeat, Apart, Within, Linked, Labelled, Mapped, Find;
      var node := FindNode(id);
      NextAndPrev(ring, |items|);
      ghost var k := Find(items, id);
      if node == null || node == sentinel.prev {
        assert node != null ==> k == |items| - 1;
        assert k == |items| - 1 && items != [] ==> Without(items, k) + [items[k]] == items;
        return;
      }
      MoveKeeps(View(), k);
      Relink(k, node, false);
      assert items == Without(old(items), k) + [old(items)[k]];
    }

    method GetValue(id: U32) returns (value: int)
      requires Valid()
      ensures value == RecyclingLists.GetValue(View(), id)
    {
      hide Ok, Ring, Mapped, Find;
      var node := FindNode(id);
      value := if node != null then node.value else 0;
    }

    method SetValue(id: U32, value: int)
      requires Valid()
      modifies this, Repr()
      ensures Valid() && View() == RecyclingLists.SetValue(old(View()), id, value) && ring == old(ring)
    {
      hide Ok, Linked, Find, Mapped;
      var node := FindNode(id);
      if node != null {
        ghost var k := Find(items, id);
        SetKeeps(View(), id, value);
        MappedSet(nodes, ring, items, k, value);
        node.value := value;
        items := items[k := Item(id, value)];
      }
    }

    static lemma MappedSet(nodes: map<U32, Node>, ring: seq<Node>, items: seq<Item>, k: nat, value: int)
      requires Mapped(nodes, ring, items) && k < |items|
      ensures Mapped(nodes, ring, items[k := Item(items[k].id, value)])
    {
      hide Find;
      var t := items[k := Item(items[k].id, value)];
      forall id | id in nodes
        ensures Find(t, id) < |t|
      {
        FoundIn(t, Find(items, id));
      }
    }

    method First() returns (id: U32)
      requires Valid()
      ensures id == RecyclingLists.First(View())
    {
      hide Ok, Mapped;
      NextAndPrev(ring, 0);
      id := if sentinel.next != sentinel then sentinel.next.id else 0;
    }

    method Last() returns (id: U32)
      requires Valid()
      ensures id == RecyclingLists.Last(View())
    {
      hide Ok, Mapped;
      NextAndPrev(ring, |items|);
      id := if sentinel.prev != sentinel then sentinel.prev.id else 0;
    }

    method Next(id: U32) returns (next: U32)
      requires Valid()
      ensures next == NextOf(View(), id)
    {
      hide Ok, Mapped, Find;
      var node := FindNode(id);
      if node == null { return 0; }
      NextAndPrev(ring, Find(items, id) + 1);
      next := if node.next == sentinel then 0 else node.next.id;
    }

    method Prev(id: U32) returns (prev: U32)
      requires Valid()
      ensures prev == PrevOf(View(), id)
    {
      hide Ok, Mapped, Find;
      var node := FindNode(id);
      if node == null { return 0; }
      NextAndPrev(ring, Find(items, id));
      prev := if node.prev == sentinel then 0 else node.prev.id;
    }

    /** The number of nodes, cast to a 32-bit integer. */
    method Size() returns (size: int)
      requires Valid()
      ensures |items| < ID_LIMIT
      ensures size == Cell(|items|)
    {
      IdsOf(items);
      assert nodes.Keys == Ids(items) by {
        hide Ok, Ring, Labelled;
        MapKeys(nodes, ring, items);
      }
      size := Cell(|nodes|);
    }

    method Clear()
      requires Valid()
      modifies this, Repr()
      ensures Valid() && View() == RecyclingLists.Clear(old(View()))
      ensures Repr() <= old(Repr())
    {
      hide Ok, Mapped, Labelled;
      ClearKeeps(View());
      var node := sentinel.next;
      ghost var i := 0;
      NextAndPrev(ring, 0);
      while node != sentinel
        invariant i < |ring| && node == ring[Up(i, |ring|)]
        modifies {}
        decreases |ring| - i
      {
        i := i + 1;
        NextAndPrev(ring, i);
        node := node.next;
      }
      sentinel.next, sentinel.prev := sentinel, sentinel;
      nodes := map[];
      freeIds := [];
      ring, items := [sentinel], [];
      Alone();
    }

    lemma Alone()
      requires ring == [sentinel] && items == [] && nodes == map[] && sentinel.next == sentinel.prev == sentinel
      ensures Wired()
    {
    }

    /** A copy holds the same values in the same order under its own ids, counted from 1. */
    method DeepCopy() returns (copy: LinkedList)
      requires Valid()
      ensures fresh(copy) && fresh(copy.Repr()) && copy.Valid()
      ensures |items| < ID_LIMIT && copy.freeIds == [] && copy.items == Numbered(items)
      ensures |copy.items| == |items| && forall i :: 0 <= i < |items| ==> copy.items[i].id == i + 1 && copy.items[i].value == items[i].value
    {
      hide Ok, Mapped, Linked, Simple, Labelled, Numbered;
      NumberedAre(items);
      CountOk(View());
      copy := new LinkedList();
      var cur := sentinel.next;
      ghost var i := 0;
      NextAndPrev(ring, 0);
      NoneNumbered();
      while cur != sentinel
        invariant i < |ring| && cur == ring[Up(i, |ring|)]
        invariant fresh(copy) && fresh(copy.Repr()) && copy.Valid()
        invariant copy.freeIds == [] && copy.items == Numbered(items[..i]) && copy.drawn == i
        decreases |ring| - i
      {
        NodeOf(i);
        copy.AddCopy(items, i, cur.value);
        i := i + 1;
        NextAndPrev(ring, i);
        cur := cur.next;
      }
      assert i == |items| by { if i < |items| { NodeOf(i); } }
      assert items[..i] == items;
    }

    method AddCopy(ghost source: seq<Item>, ghost i: nat, value: int)
      requires Valid() && i < |source| < ID_LIMIT && source[i].value == value
      requires freeIds == [] && items == Numbered(source[..i]) && drawn == i
      modifies this, Repr()
      ensures Valid() && freeIds == [] && items == Numbered(source[..i + 1]) && drawn == i + 1
      ensures fresh(Repr() - old(Repr()))
    {
      hide Ok, Mapped, Ring, Labelled, Numbered, NewId, Draw;
      NewIdIsNew(View());
      NewIdIsNext(View());
      DrawItems(View());
      NumberedMore(source, i);
      var _ := PushBack(value);
    }
  }
}
