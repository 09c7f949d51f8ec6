/** Reference counting of DataNodes: what the counts equal after every operation, and that dropping a
    reference frees exactly the nodes nobody can reach any more (src/data/data_node.cpp). */
module RefCounts {
  import opened ByteStrings

  type Id = nat

  /** How a child sits in its parent: as an array element, under a name, or under an integer. */
  datatype Key = Elem | Name(name: Bytes) | Num(num: int)
  datatype Slot = Slot(key: Key, child: Id)
  datatype Kind = Leaf | Array | Object | IntMap

  /** A node never gets the identity of an earlier one. A cell with count 0 is being destroyed: it no
      longer holds its children, each of them has one reference left to drop. */
  datatype Cell = Free | Live(count: nat, kind: Kind, slots: seq<Slot>)

  function Children(slots: seq<Slot>): (r: seq<Id>)
    ensures |r| == |slots|
  {
    seq(|slots|, i requires 0 <= i < |slots| => slots[i].child)
  }

  function Held(c: Cell): seq<Id> {
    if c.Live? && c.count > 0 then Children(c.slots) else []
  }

  /** Parent slots that hold n, among the first k cells. */
  ghost function SlotsHolding(cells: seq<Cell>, k: nat, n: Id): nat
    requires k <= |cells|
  {
    if k == 0 then 0 else SlotsHolding(cells, k - 1, n) + multiset(Held(cells[k - 1]))[n]
  }

  ghost function Refs(cells: seq<Cell>, n: Id): nat {
    SlotsHolding(cells, |cells|, n)
  }

  /** Cells that count as alive, among the first k. */
  ghost function Alive(cells: seq<Cell>, k: nat): nat
    requires k <= |cells|
  {
    if k == 0 then 0 else Alive(cells, k - 1) + if cells[k - 1].Live? && cells[k - 1].count > 0 then 1 else 0
  }

  /** Slots only name cells. */
  ghost predicate InRange(cells: seq<Cell>) {
    forall p, i :: 0 <= p < |cells| && 0 <= i < |Held(cells[p])| ==> Held(cells[p])[i] < |cells|
  }

  function Count(c: Cell): nat {
    if c.Live? then c.count else 0
  }

  /** Every count is parent slots plus outside owners plus references about to be dropped; a freed
      cell has none of the three. */
  ghost predicate Exact(cells: seq<Cell>, owners: multiset<Id>, dropping: multiset<Id>) {
    && InRange(cells)
    && (forall n :: n in owners || n in dropping ==> n < |cells|)
    && forall n :: 0 <= n < |cells| ==>
         Refs(cells, n) + owners[n] + dropping[n] == Count(cells[n])
  }

  /** Between operations nothing is being destroyed. */
  ghost predicate Settled(cells: seq<Cell>) {
    forall n :: 0 <= n < |cells| && cells[n].Live? ==> cells[n].count > 0
  }

  /** Cells only disappear: what is still alive has the slots it had. */
  ghost predicate Shrinks(before: seq<Cell>, after: seq<Cell>) {
    && |after| == |before|
    && forall n :: 0 <= n < |before| ==>
         && (before[n].Free? ==> after[n].Free?)
         && (before[n].Live? && before[n].count == 0 ==> after[n] == before[n])
         && (before[n].Live? && before[n].count > 0 ==>
               after[n].Free? || (after[n].Live? && after[n].count > 0 && after[n].kind == before[n].kind && after[n].slots == before[n].slots))
  }

  // ---- Sums under an update of one cell ----

  lemma {:induction false} SlotsHoldingUpdate(cells: seq<Cell>, k: nat, p: Id, c: Cell, n: Id)
    requires k <= |cells| && p < |cells|
    ensures p < k ==> SlotsHolding(cells[p := c], k, n) + multiset(Held(cells[p]))[n] == SlotsHolding(cells, k, n) + multiset(Held(c))[n]
    ensures p >= k ==> SlotsHolding(cells[p := c], k, n) == SlotsHolding(cells, k, n)
  {
    hide Held;
    if k > 0 {
      SlotsHoldingUpdate(cells, k - 1, p, c, n);
    }
  }

  lemma RefsUpdate(cells: seq<Cell>, p: Id, c: Cell, n: Id)
    requires p < |cells|
    ensures Refs(cells[p := c], n) + multiset(Held(cells[p]))[n] == Refs(cells, n) + multiset(Held(c))[n]
  {
    hide Held, SlotsHolding;
    SlotsHoldingUpdate(cells, |cells|, p, c, n);
  }

  lemma {:induction false} AliveUpdate(cells: seq<Cell>, k: nat, p: Id, c: Cell)
    requires k <= |cells| && p < |cells|
    ensures p >= k ==> Alive(cells[p := c], k) == Alive(cells, k)
    ensures p < k && cells[p].Live? && cells[p].count > 0 && c.Live? && c.count == 0 ==> Alive(cells[p := c], k) == Alive(cells, k) - 1
    ensures p < k && cells[p].Live? && cells[p].count > 0 && c.Live? && c.count > 0 ==> Alive(cells[p := c], k) == Alive(cells, k)
  {
    if k > 0 {
      AliveUpdate(cells, k - 1, p, c);
    }
  }

  lemma {:induction false} AliveShrinks(before: seq<Cell>, after: seq<Cell>, k: nat)
    requires Shrinks(before, after) && k <= |before|
    ensures |after| == |before| && Alive(after, k) <= Alive(before, k)
  {
    if k > 0 {
      AliveShrinks(before, after, k - 1);
    }
  }

  lemma {:induction false} SlotsHoldingPositive(cells: seq<Cell>, k: nat, n: Id) returns (p: Id, i: nat)
    requires k <= |cells| && SlotsHolding(cells, k, n) > 0
    ensures p < k && i < |Held(cells[p])| && Held(cells[p])[i] == n
  {
    hide Held;
    if multiset(Held(cells[k - 1]))[n] > 0 {
      p := k - 1;
      assert n in Held(cells[p]);
      i :| 0 <= i < |Held(cells[p])| && Held(cells[p])[i] == n;
    } else {
      p, i := SlotsHoldingPositive(cells, k - 1, n);
    }
  }

  lemma {:induction false} HeldIsCounted(cells: seq<Cell>, k: nat, p: Id, n: Id)
    requires p < k <= |cells| && n in Held(cells[p])
    ensures SlotsHolding(cells, k, n) > 0
  {
    hide Held;
    assert multiset(Held(cells[p]))[n] > 0;
    if k > p + 1 {
      HeldIsCounted(cells, k - 1, p, n);
    }
  }

  lemma {:induction false} ExtraCell(cells: seq<Cell>, c: Cell, k: nat, n: Id)
    requires k <= |cells|
    ensures SlotsHolding(cells + [c], k, n) == SlotsHolding(cells, k, n)
  {
    hide Held;
    if k > 0 {
      ExtraCell(cells, c, k - 1, n);
    }
  }

  /** Nobody refers to a cell that does not exist yet. */
  lemma {:induction false} NoRefsOutside(cells: seq<Cell>, k: nat, n: Id)
    requires k <= |cells| && InRange(cells) && n >= |cells|
    ensures SlotsHolding(cells, k, n) == 0
  {
    hide Held;
    if k > 0 {
      NoRefsOutside(cells, k - 1, n);
      assert n !in Held(cells[k - 1]);
    }
  }

  // ---- Dropping a reference ----

  /** Replacing cell p keeps the account of n right when this balance holds. */
  ghost predicate Balanced(cells: seq<Cell>, p: Id, c: Cell, n: Id, others: nat, othersAfter: nat)
    requires p < |cells| && n < |cells|
  {
    multiset(Held(cells[p]))[n] + others + Count(cells[p := c][n]) == multiset(Held(c))[n] + othersAfter + Count(cells[n])
  }

  lemma ExactUpdate(cells: seq<Cell>, owners: multiset<Id>, dropping: multiset<Id>, p: Id, c: Cell,
                    ownersAfter: multiset<Id>, droppingAfter: multiset<Id>)
    requires Exact(cells, owners, dropping) && p < |cells|
    requires forall i :: 0 <= i < |Held(c)| ==> Held(c)[i] < |cells|
    requires forall n :: n in ownersAfter || n in droppingAfter ==> n < |cells|
    requires forall n :: 0 <= n < |cells| ==> Balanced(cells, p, c, n, owners[n] + dropping[n], ownersAfter[n] + droppingAfter[n])
    ensures Exact(cells[p := c], ownersAfter, droppingAfter)
  {
    hide Refs, Held;
    var after := cells[p := c];
    forall n | 0 <= n < |after|
      ensures Refs(after, n) + ownersAfter[n] + droppingAfter[n] == Count(after[n])
    {
      RefsUpdate(cells, p, c, n);
      assert Balanced(cells, p, c, n, owners[n] + dropping[n], ownersAfter[n] + droppingAfter[n]);
    }
  }

  // ---- The account under each operation ----

  lemma MakeAccount(cells: seq<Cell>, owners: multiset<Id>, kind: Kind)
    requires Exact(cells, owners, multiset{})
    ensures Exact(cells + [Live(1, kind, [])], owners + multiset{|cells|}, multiset{})
  {
    hide SlotsHolding;
    var after := cells + [Live(1, kind, [])];
    forall n | 0 <= n < |after| ensures Refs(after, n) + (owners + multiset{|cells|})[n] == Count(after[n]) {
      ExtraCell(cells, Live(1, kind, []), |cells|, n);
      MakeLast(after, n);
      if n == |cells| {
        NoRefsOutside(cells, |cells|, n);
      }
    }
  }

  lemma MakeLast(after: seq<Cell>, n: Id)
    requires |after| > 0 && Held(after[|after| - 1]) == []
    ensures Refs(after, n) == SlotsHolding(after, |after| - 1, n)
  {
  }

  lemma IncrefAccount(cells: seq<Cell>, owners: multiset<Id>, n: Id)
    requires Exact(cells, owners, multiset{}) && Settled(cells) && n < |cells| && cells[n].Live?
    ensures Exact(cells[n := cells[n].(count := cells[n].count + 1)], owners + multiset{n}, multiset{})
  {
    hide Refs;
    KidsInRange(cells, n);
    ExactUpdate(cells, owners, multiset{}, n, cells[n].(count := cells[n].count + 1), owners + multiset{n}, multiset{});
  }

  lemma CloseAccount(cells: seq<Cell>, owners: multiset<Id>, n: Id)
    requires Exact(cells, owners, multiset{}) && n in owners
    ensures Exact(cells, owners - multiset{n}, multiset{} + multiset{n})
  {
    hide Refs;
    var rest: multiset<Id>, drop: multiset<Id> := owners - multiset{n}, multiset{} + multiset{n};
    forall m: Id ensures rest[m] + drop[m] == owners[m] {
    }
  }

  lemma SettledStore(cells: seq<Cell>, p: Id, slots: seq<Slot>)
    requires Settled(cells) && p < |cells| && cells[p].Live?
    ensures Settled(cells[p := cells[p].(slots := slots)])
  {
  }

  lemma SettledShrinks(before: seq<Cell>, after: seq<Cell>)
    requires Settled(before) && Shrinks(before, after)
    ensures Settled(after)
  {
  }

  lemma OwnedIsLive(cells: seq<Cell>, owners: multiset<Id>, p: Id)
    requires Exact(cells, owners, multiset{}) && p in owners
    ensures p < |cells| && cells[p].Live?
  {
    hide Refs;
    assert owners[p] > 0;
  }

  lemma StoreAccount(cells: seq<Cell>, owners: multiset<Id>, p: Id, slots: seq<Slot>, gained: multiset<Id>, dropped: seq<Id>)
    requires Exact(cells, owners, multiset{}) && Settled(cells) && p < |cells| && cells[p].Live? && gained <= owners
    requires multiset(Children(slots)) + multiset(dropped) == multiset(Children(cells[p].slots)) + gained
    ensures Exact(cells[p := cells[p].(slots := slots)], owners - gained, multiset(dropped))
  {
    hide Refs, InRange, Children;
    var c := cells[p].(slots := slots);
    var kids, kidsAfter := Children(cells[p].slots), Children(slots);
    KidsInRange(cells, p);
    StoreInRange(kids, kidsAfter, gained, dropped, |cells|, owners);
    var before: multiset<Id>, after: multiset<Id> := multiset(kids) + gained, multiset(kidsAfter) + multiset(dropped);
    forall n: Id | n < |cells| ensures Balanced(cells, p, c, n, owners[n], (owners - gained)[n] + multiset(dropped)[n]) {
      assert after[n] == before[n];
    }
    ExactUpdate(cells, owners, multiset{}, p, c, owners - gained, multiset(dropped));
  }

  lemma StoreInRange(kids: seq<Id>, kidsAfter: seq<Id>, gained: multiset<Id>, dropped: seq<Id>, size: nat, owners: multiset<Id>)
    requires multiset(kidsAfter) + multiset(dropped) == multiset(kids) + gained && gained <= owners
    requires forall m :: m in kids ==> m < size
    requires forall m :: m in owners ==> m < size
    ensures forall i :: 0 <= i < |kidsAfter| ==> kidsAfter[i] < size
    ensures forall m :: m in multiset(dropped) ==> m < size
  {
    forall m | m in multiset(kidsAfter) + multiset(dropped) ensures m < size {
      assert m in multiset(kids) + gained;
      assert m in kids || gained[m] > 0;
      assert gained[m] <= owners[m];
    }
    forall i | 0 <= i < |kidsAfter| ensures kidsAfter[i] < size {
      assert kidsAfter[i] in multiset(kidsAfter) + multiset(dropped);
    }
    forall m | m in multiset(dropped) ensures m < size {
      assert m in multiset(kidsAfter) + multiset(dropped);
    }
  }

  lemma SplitFirst(kids: seq<Id>, i: nat, dropping: multiset<Id>)
    requires i < |kids|
    ensures dropping + multiset(kids[i..]) == dropping + multiset(kids[i + 1..]) + multiset{kids[i]}
  {
    assert kids[i..] == [kids[i]] + kids[i + 1..];
  }

  lemma ShrinksNot(cells: seq<Cell>)
    ensures Shrinks(cells, cells)
  {
  }

  lemma ShrinksByOne(cells: seq<Cell>, n: Id)
    requires n < |cells| && cells[n].Live? && cells[n].count > 1
    ensures Shrinks(cells, cells[n := cells[n].(count := cells[n].count - 1)])
  {
  }

  lemma ShrinksOn(a: seq<Cell>, b: seq<Cell>, c: seq<Cell>)
    requires Shrinks(a, b) && Shrinks(b, c)
    ensures Shrinks(a, c) && |b| == |c|
  {
  }

  lemma ShrinksToFree(before: seq<Cell>, n: Id, after: seq<Cell>)
    requires n < |before| && before[n].Live? && before[n].count == 1
    requires Shrinks(before[n := before[n].(count := 0)], after)
    ensures |after| == |before| && after[n] == before[n].(count := 0)
    ensures Shrinks(before, after[n := Free])
  {
  }

  lemma DropAccount(cells: seq<Cell>, owners: multiset<Id>, dropping: multiset<Id>, n: Id)
    requires Exact(cells, owners, dropping + multiset{n})
    ensures n < |cells| && cells[n].Live? && cells[n].count > 0
    ensures var c := cells[n].(count := cells[n].count - 1);
            Exact(cells[n := c], owners, if c.count > 0 then dropping else dropping + multiset(Children(c.slots)))
  {
    hide Refs, InRange;
    assert n in dropping + multiset{n};
    assert (dropping + multiset{n})[n] > 0;
    assert forall m :: m in dropping ==> m in dropping + multiset{n};
    var c := cells[n].(count := cells[n].count - 1);
    var kids := multiset(Children(c.slots));
    KidsInRange(cells, n);
    if c.count > 0 {
      ExactUpdate(cells, owners, dropping + multiset{n}, n, c, owners, dropping);
    } else {
      ExactUpdate(cells, owners, dropping + multiset{n}, n, c, owners, dropping + kids);
    }
  }

  lemma KidsInRange(cells: seq<Cell>, n: Id)
    requires InRange(cells) && n < |cells| && cells[n].Live? && cells[n].count > 0
    ensures forall m :: m in Children(cells[n].slots) ==> m < |cells|
    ensures forall i :: 0 <= i < |Children(cells[n].slots)| ==> Children(cells[n].slots)[i] < |cells|
  {
    assert Held(cells[n]) == Children(cells[n].slots);
  }

  lemma FreeAccount(cells: seq<Cell>, owners: multiset<Id>, dropping: multiset<Id>, n: Id)
    requires Exact(cells, owners, dropping) && n < |cells| && cells[n].Live? && cells[n].count == 0
    ensures Exact(cells[n := Free], owners, dropping)
  {
    hide Refs;
    ExactUpdate(cells, owners, dropping, n, Free, owners, dropping);
  }
}
