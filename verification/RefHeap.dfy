/** The operations on data nodes as the code runs them. Each keeps the counts exact and frees exactly
    what no owner and no cycle holds any more. */
module RefHeap {
  import opened ByteStrings
  import opened RefCounts
  import opened RefReach
  import opened RefSlots

  /** The heap is what is left of `before` once everything that neither an owner nor a cycle holds is
      freed. */
  ghost predicate Stored(before: seq<Cell>, after: seq<Cell>, owners: multiset<Id>) {
    Shrinks(before, after) && FreedExactly(before, after, owners)
  }

  function Rewired(cells: seq<Cell>, p: Id, slots: seq<Slot>): seq<Cell>
    requires p < |cells| && cells[p].Live?
  {
    cells[p := cells[p].(slots := slots)]
  }

  ghost predicate AllKeyed(cells: seq<Cell>) {
    forall n :: 0 <= n < |cells| && cells[n].Live? ==> KeyedAs(cells[n].kind, cells[n].slots)
  }

  lemma ShrinksKeyed(before: seq<Cell>, after: seq<Cell>)
    requires AllKeyed(before) && Shrinks(before, after)
    ensures AllKeyed(after)
  {
    hide KeyedAs;
  }

  /** Everything a holder of handles can do: make a node, take a handle on one it can reach, close a
      handle, or give a node it holds other slots, whose new children are nodes it holds. */
  datatype Op = Made(kind: Kind) | Shared(n: Id) | Closed(n: Id) | Rewire(p: Id, slots: seq<Slot>, gained: multiset<Id>)

  ghost predicate Step(cells: seq<Cell>, owners: multiset<Id>, op: Op, after: seq<Cell>, ownersAfter: multiset<Id>) {
    match op
    case Made(kind) => after == cells + [Live(1, kind, [])] && ownersAfter == owners + multiset{|cells|}
    case Shared(n) =>
      && n < |cells| && cells[n].Live? && Reachable(cells, owners, n)
      && after == cells[n := cells[n].(count := cells[n].count + 1)] && ownersAfter == owners + multiset{n}
    case Closed(n) => n in owners && ownersAfter == owners - multiset{n} && Stored(cells, after, ownersAfter)
    case Rewire(p, slots, gained) =>
      && p < |cells| && cells[p].Live? && p in owners && gained <= owners && ownersAfter == owners - gained
      && (forall m :: m in Children(slots) ==> m in Children(cells[p].slots) || m in gained)
      && Stored(Rewired(cells, p, slots), after, ownersAfter)
  }

  class Heap {
    var cells: seq<Cell>
    ghost var owners: multiset<Id>

    ghost predicate Valid()
      reads this
    {
      Exact(cells, owners, multiset{}) && Settled(cells) && AllKeyed(cells)
    }

    constructor ()
      ensures Valid() && cells == [] && owners == multiset{}
    {
      cells := [];
      owners := multiset{};
    }

    /** Drops one reference to n, which is already out of the owners' account. Whatever nodes hold
        themselves are left alone. */
    method Decref(n: Id, ghost dropping: multiset<Id>, ghost keep: set<Id>)
      requires Exact(cells, owners, dropping + multiset{n}) && SelfHeld(cells, keep)
      modifies this`cells
      ensures Exact(cells, owners, dropping) && Shrinks(old(cells), cells) && SelfHeld(cells, keep)
      decreases Alive(cells, |cells|)
    {
      hide Exact, Shrinks, Alive, SelfHeld;
      DropAccount(cells, owners, dropping, n);
      KeptThroughDrop(cells, owners, dropping, n, keep);
      var c := cells[n];
      cells := cells[n := c.(count := c.count - 1)];
      if c.count > 1 {
        ShrinksByOne(old(cells), n);
        return;
      }

      var kids := Children(c.slots);
      AliveUpdate(old(cells), |cells|, n, cells[n]);
      ghost var start := cells;
      ShrinksNot(start);
      assert kids[0..] == kids;
      var i := 0;
      while i < |kids|
        invariant 0 <= i <= |kids| && SelfHeld(cells, keep)
        invariant Exact(cells, owners, dropping + multiset(kids[i..]))
        invariant Shrinks(start, cells)
        invariant Alive(cells, |cells|) < Alive(old(cells), |old(cells)|)
      {
        ghost var before := cells;
        SplitFirst(kids, i, dropping);
        Decref(kids[i], dropping + multiset(kids[i + 1..]), keep);
        AliveShrinks(before, cells, |before|);
        ShrinksOn(start, before, cells);
        i := i + 1;
      }
      assert dropping + multiset(kids[i..]) == dropping;
      ShrinksToFree(old(cells), n, cells);
      FreeAccount(cells, owners, dropping, n);
      KeptThroughFree(cells, n, keep);
      cells := cells[n := Free];
    }

    /** Gives node p other slots and then drops the children that are no longer held. `gained` are
        outside references that became slots. Every mutator below comes down to this. */
    method Store(p: Id, slots: seq<Slot>, ghost gained: multiset<Id>, dropped: seq<Id>)
      requires Valid() && p < |cells| && cells[p].Live? && p in owners - gained && gained <= owners
      requires multiset(Children(slots)) + multiset(dropped) == multiset(Children(cells[p].slots)) + gained
      requires KeyedAs(cells[p].kind, slots)
      modifies this
      ensures Valid() && owners == old(owners) - gained
      ensures Step(old(cells), old(owners), Rewire(p, slots, gained), cells, owners)
      ensures cells[p].Live? && cells[p].slots == slots && cells[p].kind == old(cells[p].kind)
    {
      hide Exact, Shrinks, FreedExactly, SelfHeld, CycleSet, Settled, KeyedAs;
      StoreAccount(cells, owners, p, slots, gained, dropped);
      cells := cells[p := cells[p].(slots := slots)];
      owners := owners - gained;
      ghost var start := cells;
      ghost var keep := CycleSet(start);
      NewChildren(old(cells[p].slots), slots, gained, dropped);
      CyclesHoldThemselves(start, owners, multiset(dropped));
      ShrinksNot(start);
      SettledStore(old(cells), p, slots);
      assert multiset{} + multiset(dropped[0..]) == multiset(dropped) by { assert dropped[0..] == dropped; }
      var i := 0;
      while i < |dropped|
        invariant 0 <= i <= |dropped| && owners == old(owners) - gained && SelfHeld(cells, keep)
        invariant Exact(cells, owners, multiset{} + multiset(dropped[i..]))
        invariant Shrinks(start, cells)
      {
        ghost var before := cells;
        SplitFirst(dropped, i, multiset{});
        Decref(dropped[i], multiset{} + multiset(dropped[i + 1..]), keep);
        ShrinksOn(start, before, cells);
        i := i + 1;
      }
      assert multiset{} + multiset(dropped[i..]) == multiset{};
      Finish(start, cells, owners, p);
      ShrinksKeyed(start, cells);
    }

    // ---- Making, sharing and closing ----

    method Make(kind: Kind) returns (n: Id)
      requires Valid()
      modifies this
      ensures Valid() && n == |old(cells)| && cells == old(cells) + [Live(1, kind, [])] && owners == old(owners) + multiset{n}
      ensures Step(old(cells), old(owners), Made(kind), cells, owners)
    {
      hide Exact;
      n := |cells|;
      MakeAccount(cells, owners, kind);
      cells := cells + [Live(1, kind, [])];
      owners := owners + multiset{n};
    }

    /** A new handle on a node somebody already holds. */
    method Incref(n: Id)
      requires Valid() && n < |cells| && cells[n].Live?
      modifies this
      ensures Valid() && owners == old(owners) + multiset{n}
      ensures cells == old(cells)[n := old(cells[n]).(count := old(cells[n].count) + 1)]
      ensures old(Reachable(cells, owners, n)) ==> Step(old(cells), old(owners), Shared(n), cells, owners)
    {
      hide Exact;
      IncrefAccount(cells, owners, n);
      cells := cells[n := cells[n].(count := cells[n].count + 1)];
      owners := owners + multiset{n};
    }

    /** An owner lets go: its handle is closed. */
    method Close(n: Id)
      requires Valid() && n in owners
      modifies this
      ensures Valid() && owners == old(owners) - multiset{n}
      ensures Step(old(cells), old(owners), Closed(n), cells, owners)
    {
      hide Exact, Shrinks, FreedExactly, SelfHeld, CycleSet, Settled;
      CyclesHoldThemselves(cells, owners, multiset{});
      CloseAccount(cells, owners, n);
      owners := owners - multiset{n};
      Decref(n, multiset{}, CycleSet(cells));
      SettledShrinks(old(cells), cells);
      FreesExactly(old(cells), cells, owners);
      ShrinksKeyed(old(cells), cells);
    }

    // ---- Maps: Object with names, IntMap with integers ----

    predicate TakesKey(p: Id, key: Key)
      reads this
    {
      && p < |cells| && cells[p].Live?
      && ((cells[p].kind == Object && key.Name?) || (cells[p].kind == IntMap && key.Num?))
    }

    /** ObjInsert and IntMapInsert: the caller's reference to val becomes the slot's, a value that was
        there before is dropped, and a node of another kind drops val instead. */
    method MapInsert(p: Id, key: Key, val: Id)
      requires Valid() && p < |cells| && cells[p].Live? && p in owners - multiset{val} && val in owners
      modifies this
      ensures Valid() && owners == old(owners) - multiset{val}
      ensures cells[p].Live? && cells[p].slots == if old(TakesKey(p, key)) then WithKey(old(cells[p].slots), key, val) else old(cells[p].slots)
      ensures old(TakesKey(p, key)) ==> AsMap(cells[p].slots) == old(AsMap(cells[p].slots))[key := val]
      ensures var op := if old(TakesKey(p, key)) then Rewire(p, WithKey(old(cells[p].slots), key, val), multiset{val}) else Closed(val);
              Step(old(cells), old(owners), op, cells, owners)
    {
      hide Exact, Stored, Settled, WithKey, KeyedAs, AsMap;
      if !TakesKey(p, key) {
        Close(val);
        OwnedKeepsSlots(old(cells), cells, owners, p);
        return;
      }
      var slots := cells[p].slots;
      WithKeyChildren(slots, key, val);
      InsertedMap(slots, key, val);
      InsertedKeyed(cells[p].kind, slots, key, val);
      Store(p, WithKey(slots, key, val), multiset{val}, Replaced(slots, key));
    }

    /** ObjErase and IntMapErase. */
    method MapErase(p: Id, key: Key) returns (erased: bool)
      requires Valid() && p < |cells| && cells[p].Live? && p in owners
      modifies this
      ensures Valid() && owners == old(owners)
      ensures erased <==> old(TakesKey(p, key)) && HasKey(old(cells[p].slots), key)
      ensures HasKey(old(cells[p].slots), key) <==> key in old(AsMap(cells[p].slots))
      ensures !erased ==> cells == old(cells)
      ensures erased ==> var slots := Without(old(cells[p].slots), FindKey(old(cells[p].slots), key));
                         Step(old(cells), old(owners), Rewire(p, slots, multiset{}), cells, owners) && cells[p].slots == slots
      ensures erased ==> AsMap(cells[p].slots) == old(AsMap(cells[p].slots)) - {key}
    {
      hide Exact, Stored, Settled, AsMap, Without;
      var slots := cells[p].slots;
      InMap(slots, key);
      if !TakesKey(p, key) || !HasKey(slots, key) { return false; }
      var i := FindKey(slots, key);
      ErasedMap(slots, key);
      RemoveAt(p, i);
      return true;
    }

    // ---- Arrays ----

    method ArrAppend(p: Id, val: Id)
      requires Valid() && p < |cells| && cells[p].Live? && cells[p].kind == Array && p in owners - multiset{val} && val in owners
      modifies this
      ensures Valid() && owners == old(owners) - multiset{val}
      ensures var slots := old(cells[p].slots) + [Slot(Elem, val)];
              Step(old(cells), old(owners), Rewire(p, slots, multiset{val}), cells, owners) && cells[p].slots == slots
    {
      hide Exact, Stored, Settled;
      var slots := cells[p].slots;
      assert Children(slots + [Slot(Elem, val)]) == Children(slots) + [val];
      Store(p, slots + [Slot(Elem, val)], multiset{val}, []);
    }

    method ArrSet(p: Id, index: nat, val: Id)
      requires Valid() && p < |cells| && cells[p].Live? && p in owners - multiset{val} && val in owners
      modifies this
      ensures Valid() && owners == old(owners) - multiset{val}
      ensures old(cells[p].kind == Array && index < |cells[p].slots|) ==>
                var slots := old(cells[p].slots)[index := Slot(Elem, val)];
                Step(old(cells), old(owners), Rewire(p, slots, multiset{val}), cells, owners) && cells[p].Live? && cells[p].slots == slots
      ensures !old(cells[p].kind == Array && index < |cells[p].slots|) ==>
                Step(old(cells), old(owners), Closed(val), cells, owners) && cells[p].Live? && cells[p].slots == old(cells[p].slots)
    {
      hide Exact, Stored, Settled;
      if cells[p].kind != Array || index >= |cells[p].slots| {
        Close(val);
        OwnedKeepsSlots(old(cells), cells, owners, p);
        return;
      }
      var slots := cells[p].slots;
      ReplacedChild(slots, index, Slot(Elem, val));
      Store(p, slots[index := Slot(Elem, val)], multiset{val}, [slots[index].child]);
    }

    method ArrRemove(p: Id, index: nat) returns (removed: bool)
      requires Valid() && p < |cells| && cells[p].Live? && p in owners
      modifies this
      ensures Valid() && owners == old(owners)
      ensures removed <==> old(cells[p].kind == Array && index < |cells[p].slots|)
      ensures !removed ==> cells == old(cells)
      ensures removed ==> var slots := Without(old(cells[p].slots), index);
                          Step(old(cells), old(owners), Rewire(p, slots, multiset{}), cells, owners) && cells[p].slots == slots
    {
      hide Exact, Stored, Settled;
      if cells[p].kind != Array || index >= |cells[p].slots| { return false; }
      RemoveAt(p, index);
      return true;
    }

    method RemoveAt(p: Id, index: nat)
      requires Valid() && p < |cells| && cells[p].Live? && p in owners && index < |cells[p].slots|
      modifies this
      ensures Valid() && owners == old(owners)
      ensures var slots := Without(old(cells[p].slots), index);
              Step(old(cells), old(owners), Rewire(p, slots, multiset{}), cells, owners) && cells[p].Live? && cells[p].slots == slots
    {
      hide Exact, Stored, KeyedAs;
      var slots := cells[p].slots;
      RemovedChild(slots, index);
      ErasedKeyed(cells[p].kind, slots, index);
      Store(p, Without(slots, index), multiset{}, [slots[index].child]);
    }

    /** ObjClear, IntMapClear and ArrClear. */
    method Clear(p: Id)
      requires Valid() && p < |cells| && cells[p].Live? && p in owners
      modifies this
      ensures Valid() && owners == old(owners)
      ensures Step(old(cells), old(owners), Rewire(p, [], multiset{}), cells, owners) && cells[p].Live? && cells[p].slots == []
    {
      hide Exact, Stored;
      Store(p, [], multiset{}, Children(cells[p].slots));
    }

    // ---- The native that puts one object into another ----

    /** Rejects only a node's insertion into itself; the child's handle is closed afterwards. What owners
        still hold keeps its slots. */
    method SetObject(p: Id, key: Bytes, child: Id) returns (ok: bool)
      requires Valid() && p in owners && child in owners
      modifies this
      ensures Valid() && ok == (p != child) && |cells| == |old(cells)|
      ensures !ok ==> cells == old(cells) && owners == old(owners)
      ensures ok ==> owners == old(owners) - multiset{child} && old(cells[p].Live?) && cells[p].Live?
      ensures ok ==> cells[p].slots == if old(cells[p].kind) == Object then WithKey(old(cells[p].slots), Name(key), child) else old(cells[p].slots)
      ensures ok && old(cells[p].kind) == Object ==> AsMap(cells[p].slots) == old(AsMap(cells[p].slots))[Name(key) := child]
      ensures ok ==> forall q :: q in owners && q != p ==> SameNode(old(cells), cells, q)
    {
      hide Exact, Settled, Step, WithKey, AllKeyed, AsMap;
      ok := p != child;
      if !ok { return; }
      OwnedIsLive(cells, owners, child);
      OwnedIsLive(cells, owners, p);
      Incref(child);
      ghost var one, held := cells, owners;
      assert (owners - multiset{child})[p] > 0;
      MapInsert(p, Name(key), child);
      ghost var two, holding := cells, owners;
      ghost var op := if one[p].kind == Object then Rewire(p, WithKey(one[p].slots, Name(key), child), multiset{child}) else Closed(child);
      Close(child);
      StepKeepsSlots(two, holding, Closed(child), cells, owners, p);
      assert held - multiset{child} == old(owners);
      OthersKept(one, held, op, two, holding, child, cells, owners);
    }
  }

  /** An insertion and then a close: what is owned afterwards keeps its slots, except the parent. */
  lemma OthersKept(one: seq<Cell>, held: multiset<Id>, op: Op, two: seq<Cell>, holding: multiset<Id>, child: Id, three: seq<Cell>, left: multiset<Id>)
    requires Exact(one, held, multiset{}) && Settled(one) && Exact(two, holding, multiset{}) && Settled(two)
    requires Exact(three, left, multiset{})
    requires op.Closed? || op.Rewire?
    requires Step(one, held, op, two, holding) && Step(two, holding, Closed(child), three, left)
    requires left <= holding <= held
    ensures |three| == |one| && forall q :: q in left && (op.Rewire? ==> q != op.p) ==> SameNode(one, three, q)
  {
    hide Exact, Settled, Step;
    StepSize(one, held, op, two, holding);
    StepSize(two, holding, Closed(child), three, left);
    forall q | q in left && (op.Rewire? ==> q != op.p)
      ensures SameNode(one, three, q)
    {
      StepKeepsSlots(two, holding, Closed(child), three, left, q);
      StepKeepsSlots(one, held, op, two, holding, q);
    }
  }

  lemma StepSize(cells: seq<Cell>, owners: multiset<Id>, op: Op, after: seq<Cell>, ownersAfter: multiset<Id>)
    requires Step(cells, owners, op, after, ownersAfter) && !op.Made?
    ensures |after| == |cells|
  {
    hide FreedExactly, Children, Reachable;
  }

  /** A node that is owned afterwards keeps its slots, unless it is the one that gets others. */
  lemma StepKeepsSlots(cells: seq<Cell>, owners: multiset<Id>, op: Op, after: seq<Cell>, ownersAfter: multiset<Id>, q: Id)
    requires Exact(cells, owners, multiset{}) && Settled(cells) && Exact(after, ownersAfter, multiset{}) && q in ownersAfter && q in owners
    requires Step(cells, owners, op, after, ownersAfter) && (op.Closed? || (op.Rewire? && op.p != q))
    ensures SameNode(cells, after, q) && |after| == |cells|
  {
    hide Exact, FreedExactly, Children;
    OwnedIsLive(cells, owners, q);
    OwnedIsLive(after, ownersAfter, q);
  }

  ghost predicate SameNode(before: seq<Cell>, after: seq<Cell>, q: Id) {
    q < |before| && q < |after| && before[q].Live? && after[q].Live? && after[q].kind == before[q].kind && after[q].slots == before[q].slots
  }

  // ---- Steps of the proofs ----

  lemma Finish(before: seq<Cell>, after: seq<Cell>, owners: multiset<Id>, p: Id)
    requires Settled(before) && Shrinks(before, after) && Exact(after, owners, multiset{}) && SelfHeld(after, CycleSet(before))
    requires p in owners && p < |before| && before[p].Live?
    ensures Settled(after) && Stored(before, after, owners)
    ensures after[p].Live? && after[p].slots == before[p].slots && after[p].kind == before[p].kind
  {
    hide Refs, FreedExactly, SelfHeld;
    SettledShrinks(before, after);
    FreesExactly(before, after, owners);
    OwnedIsLive(after, owners, p);
  }

  /** Nodes that hold themselves go on doing so while they are alive with the same slots. */
  lemma StillHeld(cells: seq<Cell>, after: seq<Cell>, keep: set<Id>)
    requires SelfHeld(cells, keep) && |after| == |cells|
    requires forall m :: m in keep ==> m < |cells| && after[m].Live? && after[m].count > 0 && Held(after[m]) == Held(cells[m])
    ensures SelfHeld(after, keep)
  {
    hide Held;
    forall m | m in keep
      ensures HeldFrom(after, keep, m)
    {
      assert HeldFrom(cells, keep, m);
      var p :| p in keep && p < |cells| && m in Held(cells[p]);
      assert m in Held(after[p]);
    }
  }

  lemma KeptInRange(cells: seq<Cell>, keep: set<Id>, m: Id)
    requires SelfHeld(cells, keep) && m in keep
    ensures m < |cells| && cells[m].Live? && cells[m].count > 0
  {
    hide Held;
    assert HeldFrom(cells, keep, m);
  }

  /** A node that its kind holds has a reference besides the one to drop. */
  lemma KeptIsCounted(cells: seq<Cell>, owners: multiset<Id>, dropping: multiset<Id>, n: Id, keep: set<Id>)
    requires Exact(cells, owners, dropping + multiset{n}) && SelfHeld(cells, keep) && n in keep
    ensures n < |cells| && cells[n].Live? && cells[n].count > 1
  {
    hide SlotsHolding, Held, Exact;
    assert HeldFrom(cells, keep, n);
    var p :| p in keep && p < |cells| && n in Held(cells[p]);
    HeldIsCounted(cells, |cells|, p, n);
    assert (dropping + multiset{n})[n] > 0;
    ExactAt(cells, owners, dropping + multiset{n}, n);
  }

  lemma ExactAt(cells: seq<Cell>, owners: multiset<Id>, dropping: multiset<Id>, n: Id)
    requires Exact(cells, owners, dropping) && n < |cells|
    ensures Refs(cells, n) + owners[n] + dropping[n] == Count(cells[n])
  {
    hide Refs, InRange;
  }

  lemma KeptThroughDrop(cells: seq<Cell>, owners: multiset<Id>, dropping: multiset<Id>, n: Id, keep: set<Id>)
    requires Exact(cells, owners, dropping + multiset{n}) && SelfHeld(cells, keep) && n < |cells| && cells[n].Live? && cells[n].count > 0
    ensures SelfHeld(cells[n := cells[n].(count := cells[n].count - 1)], keep)
  {
    hide Exact, SelfHeld;
    var after := cells[n := cells[n].(count := cells[n].count - 1)];
    if n in keep { KeptIsCounted(cells, owners, dropping, n, keep); }
    forall m | m in keep
      ensures m < |cells| && after[m].Live? && after[m].count > 0 && Held(after[m]) == Held(cells[m])
    {
      KeptInRange(cells, keep, m);
    }
    StillHeld(cells, after, keep);
  }

  lemma KeptThroughFree(cells: seq<Cell>, n: Id, keep: set<Id>)
    requires SelfHeld(cells, keep) && n < |cells| && cells[n].Live? && cells[n].count == 0
    ensures SelfHeld(cells[n := Free], keep)
  {
    hide SelfHeld, Held;
    forall m | m in keep
      ensures m < |cells| && m != n && cells[m].Live? && cells[m].count > 0
    {
      KeptInRange(cells, keep, m);
    }
    StillHeld(cells, cells[n := Free], keep);
  }

  lemma OwnedKeepsSlots(before: seq<Cell>, after: seq<Cell>, owners: multiset<Id>, p: Id)
    requires p < |before| && before[p].Live? && Stored(before, after, owners) && Exact(after, owners, multiset{}) && p in owners && Settled(before)
    ensures p < |after| && after[p].Live? && after[p].slots == before[p].slots
  {
    hide FreedExactly, Exact;
    OwnedIsLive(after, owners, p);
  }

  lemma NewChildren(before: seq<Slot>, slots: seq<Slot>, gained: multiset<Id>, dropped: seq<Id>)
    requires multiset(Children(slots)) + multiset(dropped) == multiset(Children(before)) + gained
    ensures forall m :: m in Children(slots) ==> m in Children(before) || m in gained
  {
    hide Children;
    forall m | m in Children(slots)
      ensures m in Children(before) || m in gained
    {
      assert m in multiset(Children(slots)) + multiset(dropped);
      assert m in multiset(Children(before)) + gained;
    }
  }
}
