/** What rejecting only direct self-insertion leaves open: nodes that hold each other can be lost, and
    once lost stay so under every later operation. */
module RefCycles {
  import opened ByteStrings
  import opened RefCounts
  import opened RefReach
  import opened RefSlots
  import opened RefHeap

  // ---- A run of accepted operations that loses two nodes ----

  lemma TwoHoldEachOther(cells: seq<Cell>, a: Id, b: Id)
    requires a < |cells| && b < |cells| && b in Held(cells[a]) && a in Held(cells[b])
    ensures OnCycle(cells, a) && OnCycle(cells, b) && FromCycle(cells, a) && FromCycle(cells, b)
  {
    hide Held;
    assert Chain(cells, [a, b, a]) && Chain(cells, [b, a, b]);
    OnCycleHeld(cells, a);
    OnCycleHeld(cells, b);
  }

  /** Closing a handle frees neither of two nodes that hold each other. */
  lemma BothSurvive(before: seq<Cell>, after: seq<Cell>, owners: multiset<Id>, a: Id, b: Id)
    requires Settled(before) && Stored(before, after, owners) && a < |before| && b < |before|
    requires b in Held(before[a]) && a in Held(before[b])
    ensures a < |after| && b < |after| && after[a].Live? && after[b].Live? && b in Held(after[a]) && a in Held(after[b])
  {
    hide FromCycle, Reachable;
    TwoHoldEachOther(before, a, b);
  }

  /** Two empty objects, with two handles on each. */
  method MakeTwo() returns (h: Heap, a: Id, b: Id)
    ensures fresh(h) && h.Valid() && a == 0 && b == 1 && h.owners == multiset{a, a, b, b}
    ensures h.cells == [Live(2, Object, []), Live(2, Object, [])]
  {
    hide Exact, Settled;
    h := new Heap();
    a := h.Make(Object);
    b := h.Make(Object);
    h.Incref(a);
    h.Incref(b);
  }

  /** Each put into the other, with a handle left on each. */
  method PutTwo(key: Bytes) returns (h: Heap, a: Id, b: Id)
    ensures fresh(h) && h.Valid() && h.owners == multiset{a, b}
    ensures a < |h.cells| && b < |h.cells| && b in Held(h.cells[a]) && a in Held(h.cells[b])
  {
    hide Exact, Settled, WithKey, Held;
    h, a, b := MakeTwo();
    FirstKey(Name(key), b);
    FirstKey(Name(key), a);
    var first := h.SetObject(a, key, b);
    assert h.owners == multiset{a, a, b};
    assert b in h.owners && a in h.owners;
    assert SameNode([Live(2, Object, []), Live(2, Object, [])], h.cells, b);
    ghost var before := h.cells;
    var second := h.SetObject(b, key, a);
    assert h.owners == multiset{a, b};
    assert a in h.owners;
    assert SameNode(before, h.cells, a);
    HoldsOnly(h.cells, a, Name(key), b);
    HoldsOnly(h.cells, b, Name(key), a);
  }

  /** Make two objects, put each into the other, close both handles: the code accepts every step, and
      two nodes are left alive that nobody can reach. */
  method LoseTwo(key: Bytes) returns (h: Heap, a: Id, b: Id)
    ensures fresh(h) && h.Valid() && h.owners == multiset{}
    ensures Lost(h.cells, h.owners, a) && Lost(h.cells, h.owners, b)
  {
    hide Exact, Settled, Stored, Chain, Held, FromCycle;
    h, a, b := PutTwo(key);
    ghost var start := h.cells;
    h.Close(a);
    BothSurvive(start, h.cells, h.owners, a, b);
    ghost var next := h.cells;
    h.Close(b);
    BothSurvive(next, h.cells, h.owners, a, b);
    TwoHoldEachOther(h.cells, a, b);
  }

  lemma FirstKey(key: Key, n: Id)
    ensures WithKey([], key, n) == [Slot(key, n)]
  {
  }

  lemma HoldsOnly(cells: seq<Cell>, p: Id, key: Key, n: Id)
    requires Settled(cells) && p < |cells| && cells[p].Live? && cells[p].slots == [Slot(key, n)]
    ensures n in Held(cells[p])
  {
    assert Held(cells[p])[0] == n;
  }

  // ---- Lost for good ----

  ghost predicate Lost(cells: seq<Cell>, owners: multiset<Id>, n: Id) {
    n < |cells| && cells[n].Live? && FromCycle(cells, n) && !Reachable(cells, owners, n)
  }

  /** What reaches a node nobody can reach cannot be reached either. */
  lemma LostAbove(cells: seq<Cell>, owners: multiset<Id>, q: Id, n: Id)
    requires Reaches(cells, q, n) && !Reachable(cells, owners, n)
    ensures !Reachable(cells, owners, q)
  {
    hide Chain;
    if Reachable(cells, owners, q) {
      var o :| o in owners && Reaches(cells, o, q);
      ReachesOn(cells, o, q, n);
    }
  }

  /** The slots of every node out of reach are the same. */
  ghost predicate Untouched(cells: seq<Cell>, owners: multiset<Id>, after: seq<Cell>) {
    forall q :: 0 <= q < |cells| && !Reachable(cells, owners, q) ==> q < |after| && Held(after[q]) == Held(cells[q])
  }

  lemma ChainUntouched(cells: seq<Cell>, owners: multiset<Id>, after: seq<Cell>, path: seq<Id>)
    requires Untouched(cells, owners, after) && Chain(cells, path) && !Reachable(cells, owners, path[|path| - 1])
    ensures Chain(after, path)
  {
    hide Held, Reachable;
    forall i | 0 <= i < |path|
      ensures !Reachable(cells, owners, path[i])
    {
      PartOfChain(cells, path, i, |path|);
      LostAbove(cells, owners, path[i], path[|path| - 1]);
    }
  }

  lemma CycleUntouched(cells: seq<Cell>, owners: multiset<Id>, after: seq<Cell>, n: Id)
    requires Untouched(cells, owners, after) && FromCycle(cells, n) && !Reachable(cells, owners, n)
    ensures FromCycle(after, n)
  {
    hide Untouched, Reachable, Chain;
    var c :| OnCycle(cells, c) && Reaches(cells, c, n);
    LostAbove(cells, owners, c, n);
    var path :| Chain(cells, path) && path[0] == c && path[|path| - 1] == n;
    ChainUntouched(cells, owners, after, path);
    var turn :| Chain(cells, turn) && |turn| > 1 && turn[0] == c && turn[|turn| - 1] == c;
    ChainUntouched(cells, owners, after, turn);
    assert OnCycle(after, c) && Reaches(after, c, n);
  }

  lemma LinkStored(before: seq<Cell>, after: seq<Cell>, owners: multiset<Id>, q: Id, m: Id)
    requires Stored(before, after, owners) && q < |before| && m in Held(before[q]) && FromCycle(before, q)
    ensures q < |after| && m in Held(after[q])
  {
    hide FromCycle, Reachable;
    HolderIsLive(before, q, m);
  }

  /** What a cycle holds survives the freeing, and so does the cycle. */
  lemma ChainStored(before: seq<Cell>, after: seq<Cell>, owners: multiset<Id>, path: seq<Id>)
    requires Stored(before, after, owners) && |after| == |before| && Chain(before, path) && FromCycle(before, path[0])
    ensures Chain(after, path)
  {
    hide FromCycle, Stored, Held;
    forall i | 0 <= i < |path| - 1
      ensures path[i + 1] in Held(after[path[i]])
    {
      PartOfChain(before, path, 0, i + 1);
      FurtherFromCycle(before, path[0], path[i]);
      LinkStored(before, after, owners, path[i], path[i + 1]);
    }
  }

  lemma FurtherFromCycle(cells: seq<Cell>, a: Id, b: Id)
    requires FromCycle(cells, a) && Reaches(cells, a, b)
    ensures FromCycle(cells, b)
  {
    hide Chain;
    var c :| OnCycle(cells, c) && Reaches(cells, c, a);
    ReachesOn(cells, c, a, b);
  }

  lemma CycleStored(before: seq<Cell>, after: seq<Cell>, owners: multiset<Id>, n: Id)
    requires Stored(before, after, owners) && FromCycle(before, n) && n < |before| && before[n].Live?
    ensures n < |after| && after[n].Live? && FromCycle(after, n)
  {
    hide Chain, Reachable, Shrinks;
    var c :| OnCycle(before, c) && Reaches(before, c, n);
    OnCycleHeld(before, c);
    var path :| Chain(before, path) && path[0] == c && path[|path| - 1] == n;
    ChainStored(before, after, owners, path);
    var turn :| Chain(before, turn) && |turn| > 1 && turn[0] == c && turn[|turn| - 1] == c;
    ChainStored(before, after, owners, turn);
    assert OnCycle(after, c) && Reaches(after, c, n);
  }

  /** What owners reach after new slots were put in, they reached before. */
  lemma {:induction false} ReachedBefore(cells: seq<Cell>, owners: multiset<Id>, p: Id, slots: seq<Slot>, gained: multiset<Id>, path: seq<Id>, k: nat)
    requires InRange(cells) && p < |cells| && cells[p].Live? && cells[p].count > 0 && p in owners && gained <= owners
    requires forall m :: m in owners ==> m < |cells|
    requires forall m :: m in Children(slots) ==> m in Children(cells[p].slots) || m in gained
    requires Chain(Rewired(cells, p, slots), path) && path[0] in owners && k < |path|
    ensures Reachable(cells, owners, path[k])
  {
    hide InRange, Children;
    if k == 0 {
      ReachesItself(cells, path[0]);
    } else {
      ReachedBefore(cells, owners, p, slots, gained, path, k - 1);
      var q, m := path[k - 1], path[k];
      assert m in Held(Rewired(cells, p, slots)[q]);
      if m in Held(cells[q]) {
        var o :| o in owners && Reaches(cells, o, q);
        ReachesFurther(cells, o, q, m);
      } else {
        assert gained[m] <= owners[m];
        ReachesItself(cells, m);
      }
    }
  }

  lemma RewiredUntouched(cells: seq<Cell>, owners: multiset<Id>, p: Id, slots: seq<Slot>)
    requires p < |cells| && cells[p].Live? && p in owners
    ensures Untouched(cells, owners, Rewired(cells, p, slots))
  {
    hide Chain;
    ReachesItself(cells, p);
  }

  lemma StillLost(cells: seq<Cell>, owners: multiset<Id>, p: Id, slots: seq<Slot>, gained: multiset<Id>, o: Id, n: Id)
    requires Exact(cells, owners, multiset{}) && Settled(cells) && p < |cells| && cells[p].Live? && p in owners && gained <= owners
    requires forall m :: m in Children(slots) ==> m in Children(cells[p].slots) || m in gained
    requires o in owners && Reaches(Rewired(cells, p, slots), o, n)
    ensures Reachable(cells, owners, n)
  {
    hide Refs, Chain, Children, Reachable, InRange;
    var path :| Chain(Rewired(cells, p, slots), path) && path[0] == o && path[|path| - 1] == n;
    ReachedBefore(cells, owners, p, slots, gained, path, |path| - 1);
  }

  lemma RewireKeepsLost(cells: seq<Cell>, owners: multiset<Id>, p: Id, slots: seq<Slot>, gained: multiset<Id>, after: seq<Cell>, n: Id)
    requires Exact(cells, owners, multiset{}) && Settled(cells) && Lost(cells, owners, n)
    requires Step(cells, owners, Rewire(p, slots, gained), after, owners - gained)
    ensures Lost(after, owners - gained, n)
  {
    hide Exact, Settled, FromCycle, Reaches, Stored, Children, Untouched;
    var start := Rewired(cells, p, slots);
    RewiredUntouched(cells, owners, p, slots);
    CycleUntouched(cells, owners, start, n);
    CycleStored(start, after, owners - gained, n);
    if Reachable(after, owners - gained, n) {
      var o :| o in owners - gained && Reaches(after, o, n);
      StoredReaches(start, after, owners - gained, o, n);
      StillLost(cells, owners, p, slots, gained, o, n);
    }
  }

  lemma StoredReaches(before: seq<Cell>, after: seq<Cell>, owners: multiset<Id>, a: Id, b: Id)
    requires Stored(before, after, owners) && Reaches(after, a, b)
    ensures Reaches(before, a, b)
  {
    hide Shrinks, FreedExactly, Chain;
    SameReaches(before, after, a, b);
  }

  lemma CloseKeepsLost(cells: seq<Cell>, owners: multiset<Id>, m: Id, after: seq<Cell>, n: Id)
    requires Lost(cells, owners, n) && Step(cells, owners, Closed(m), after, owners - multiset{m})
    ensures Lost(after, owners - multiset{m}, n)
  {
    hide FromCycle, Chain, Stored, Reaches;
    CycleStored(cells, after, owners - multiset{m}, n);
    if Reachable(after, owners - multiset{m}, n) {
      var o :| o in owners - multiset{m} && Reaches(after, o, n);
      StoredReaches(cells, after, owners - multiset{m}, o, n);
    }
  }

  /** Chains of a heap that differs only where it matters to nobody's slots. */
  lemma SameLinks(cells: seq<Cell>, after: seq<Cell>, path: seq<Id>)
    requires |after| >= |cells| && Chain(after, path) && path[|path| - 1] < |cells| && InRange(cells)
    requires forall q :: 0 <= q < |after| ==> Held(after[q]) == if q < |cells| then Held(cells[q]) else []
    ensures Chain(cells, path)
  {
    hide Held, InRange;
    forall i | 0 <= i < |path|
      ensures path[i] < |cells|
    {
      if i < |path| - 1 {
        assert path[i + 1] in Held(after[path[i]]);
      }
    }
  }

  lemma MakeKeepsLost(cells: seq<Cell>, owners: multiset<Id>, kind: Kind, after: seq<Cell>, n: Id)
    requires Exact(cells, owners, multiset{}) && Lost(cells, owners, n) && Step(cells, owners, Made(kind), after, owners + multiset{|cells|})
    ensures Lost(after, owners + multiset{|cells|}, n)
  {
    hide SlotsHolding, FromCycle, Chain;
    CycleUntouched(cells, owners, after, n);
    if Reachable(after, owners + multiset{|cells|}, n) {
      var o :| o in owners + multiset{|cells|} && Reaches(after, o, n);
      var path :| Chain(after, path) && path[0] == o && path[|path| - 1] == n;
      SameLinks(cells, after, path);
      ChainInRange(cells, path);
    }
  }

  lemma ShareKeepsLost(cells: seq<Cell>, owners: multiset<Id>, m: Id, after: seq<Cell>, n: Id)
    requires Exact(cells, owners, multiset{}) && Settled(cells) && Lost(cells, owners, n)
    requires Step(cells, owners, Shared(m), after, owners + multiset{m})
    ensures Lost(after, owners + multiset{m}, n)
  {
    hide SlotsHolding, FromCycle, Chain;
    CycleUntouched(cells, owners, after, n);
    if Reachable(after, owners + multiset{m}, n) {
      var o :| o in owners + multiset{m} && Reaches(after, o, n);
      var path :| Chain(after, path) && path[0] == o && path[|path| - 1] == n;
      SameLinks(cells, after, path);
      var top :| top in owners && Reaches(cells, top, m);
      if o == m { ReachesOn(cells, top, m, n); }
    }
  }

  lemma StepKeepsLost(cells: seq<Cell>, owners: multiset<Id>, op: Op, after: seq<Cell>, ownersAfter: multiset<Id>, n: Id)
    requires Exact(cells, owners, multiset{}) && Settled(cells) && Lost(cells, owners, n) && Step(cells, owners, op, after, ownersAfter)
    ensures Lost(after, ownersAfter, n)
  {
    hide Exact, Settled, Lost, Stored, Reachable;
    match op
    case Made(kind) => MakeKeepsLost(cells, owners, kind, after, n);
    case Shared(m) => ShareKeepsLost(cells, owners, m, after, n);
    case Closed(m) => CloseKeepsLost(cells, owners, m, after, n);
    case Rewire(p, slots, gained) => RewireKeepsLost(cells, owners, p, slots, gained, after, n);
  }

  // ---- Whole runs ----

  datatype State = State(cells: seq<Cell>, owners: multiset<Id>)

  ghost predicate Run(run: seq<State>, ops: seq<Op>) {
    && |run| == |ops| + 1
    && (forall i :: 0 <= i < |run| ==> Exact(run[i].cells, run[i].owners, multiset{}) && Settled(run[i].cells))
    && forall i :: 0 <= i < |ops| ==> Step(run[i].cells, run[i].owners, ops[i], run[i + 1].cells, run[i + 1].owners)
  }

  /** A node that only a cycle holds is never freed and never reached again, whatever the holders of
      handles do from then on. */
  lemma {:induction false} CycleIsNeverFreed(run: seq<State>, ops: seq<Op>, i: nat, j: nat, n: Id)
    requires Run(run, ops) && i <= j < |run| && Lost(run[i].cells, run[i].owners, n)
    ensures Lost(run[j].cells, run[j].owners, n)
  {
    hide Lost, Step, Exact, Settled;
    if i < j {
      CycleIsNeverFreed(run, ops, i, j - 1, n);
      assert Step(run[j - 1].cells, run[j - 1].owners, ops[j - 1], run[j].cells, run[j].owners);
      StepKeepsLost(run[j - 1].cells, run[j - 1].owners, ops[j - 1], run[j].cells, run[j].owners, n);
    }
  }
}
