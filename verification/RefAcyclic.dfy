/** Which operations keep a heap free of cycles, and that over every run exactly those operations never
    lose a node. */
module RefAcyclic {
  import opened RefCounts
  import opened RefReach
  import opened RefHeap
  import opened RefCycles

  // ---- One new set of slots ----

  function Top(rank: seq<nat>): (top: nat)
    ensures forall q :: 0 <= q < |rank| ==> rank[q] <= top
  {
    if rank == [] then 0
    else
      var rest := Top(rank[..|rank| - 1]);
      if rank[|rank| - 1] > rest then rank[|rank| - 1] else rest
  }

  /** Everything above p is lifted over all the rest, so that p may hold whatever is not above it. */
  ghost function Lifted(cells: seq<Cell>, p: Id, rank: seq<nat>): (r: seq<nat>)
    requires |rank| == |cells|
    ensures |r| == |cells|
  {
    seq(|cells|, q requires 0 <= q < |cells| => if Reaches(cells, q, p) then rank[q] + Top(rank) + 1 else rank[q])
  }

  lemma LiftedFalls(cells: seq<Cell>, p: Id, rank: seq<nat>, q: Id, m: Id)
    requires Ranked(cells, rank) && q < |cells| && m < |cells| && m in Held(cells[q])
    ensures Lifted(cells, p, rank)[m] < Lifted(cells, p, rank)[q]
  {
    hide Reaches, Held;
    RankFallsAt(cells, rank, q, m);
    if Reaches(cells, m, p) {
      ReachesFromAbove(cells, q, m, p);
    }
  }

  lemma RewiredStaysAcyclic(cells: seq<Cell>, p: Id, slots: seq<Slot>)
    requires Acyclic(cells) && p < |cells| && cells[p].Live? && cells[p].count > 0
    requires forall m :: m in Children(slots) ==> m in Children(cells[p].slots) || !Reaches(cells, m, p)
    ensures Acyclic(Rewired(cells, p, slots))
  {
    hide Reaches, Children, Top;
    var after := Rewired(cells, p, slots);
    var rank :| Ranked(cells, rank);
    var lifted := Lifted(cells, p, rank);
    ReachesItself(cells, p);
    forall q, i | 0 <= q < |after| && 0 <= i < |Held(after[q])| && Held(after[q])[i] < |after|
      ensures lifted[Held(after[q])[i]] < lifted[q]
    {
      var m := Held(after[q])[i];
      assert m in Held(after[q]);
      if m in Held(cells[q]) {
        LiftedFalls(cells, p, rank, q, m);
      }
    }
    assert Ranked(after, lifted);
  }

  /** The first place of p on a path. */
  function FirstAt(path: seq<Id>, p: Id): (k: nat)
    requires p in path
    ensures k < |path| && path[k] == p && forall j :: 0 <= j < k ==> path[j] != p
  {
    if path[0] == p then 0 else 1 + FirstAt(path[1..], p)
  }

  lemma {:induction false} RankFallsTo(cells: seq<Cell>, p: Id, slots: seq<Slot>, rank: seq<nat>, path: seq<Id>, k: nat)
    requires p < |cells| && cells[p].Live? && Ranked(Rewired(cells, p, slots), rank)
    requires Chain(cells, path) && k < |path| && forall j :: 0 <= j < k ==> path[j] != p
    ensures rank[path[k]] <= rank[path[0]]
  {
    hide Held;
    if k > 0 {
      RankFallsTo(cells, p, slots, rank, path, k - 1);
      RankFallsAt(Rewired(cells, p, slots), rank, path[k - 1], path[k]);
    }
  }

  lemma RewiredClosesCycle(cells: seq<Cell>, p: Id, slots: seq<Slot>, m: Id)
    requires p < |cells| && cells[p].Live? && cells[p].count > 0 && m in Children(slots) && Reaches(cells, m, p)
    ensures !Acyclic(Rewired(cells, p, slots))
  {
    hide Children;
    var after := Rewired(cells, p, slots);
    var path :| Chain(cells, path) && path[0] == m && path[|path| - 1] == p;
    if Acyclic(after) {
      var rank :| Ranked(after, rank);
      RankFallsTo(cells, p, slots, rank, path, FirstAt(path, p));
      assert m in Held(after[p]);
      RankFallsAt(after, rank, p, m);
    }
  }

  /** Other slots for p keep a heap acyclic exactly when none of the children in them reaches p, which
      is more than none of them being p itself. */
  lemma RewireKeepsAcyclic(cells: seq<Cell>, p: Id, slots: seq<Slot>)
    requires Acyclic(cells) && p < |cells| && cells[p].Live? && cells[p].count > 0
    ensures Acyclic(Rewired(cells, p, slots)) <==> forall m :: m in Children(slots) ==> !Reaches(cells, m, p)
  {
    hide Acyclic, Reaches, Children;
    if m :| m in Children(slots) && Reaches(cells, m, p) {
      RewiredClosesCycle(cells, p, slots, m);
    } else {
      RewiredStaysAcyclic(cells, p, slots);
    }
  }

  // ---- The other operations ----

  lemma MakeAcyclic(cells: seq<Cell>, owners: multiset<Id>, kind: Kind)
    requires Exact(cells, owners, multiset{}) && Acyclic(cells)
    ensures Acyclic(cells + [Live(1, kind, [])])
  {
    var rank :| Ranked(cells, rank);
    var after := cells + [Live(1, kind, [])];
    forall p, i | 0 <= p < |after| && 0 <= i < |Held(after[p])| && Held(after[p])[i] < |after|
      ensures (rank + [0])[Held(after[p])[i]] < (rank + [0])[p]
    {
      assert p < |cells| && Held(after[p]) == Held(cells[p]);
    }
    assert Ranked(after, rank + [0]);
  }

  lemma SameLinksAcyclic(cells: seq<Cell>, n: Id)
    requires Acyclic(cells) && n < |cells| && cells[n].Live? && cells[n].count > 0
    ensures Acyclic(cells[n := cells[n].(count := cells[n].count + 1)])
  {
    var rank :| Ranked(cells, rank);
    var after := cells[n := cells[n].(count := cells[n].count + 1)];
    assert forall p :: 0 <= p < |cells| ==> Held(after[p]) == Held(cells[p]);
    assert Ranked(after, rank);
  }

  // ---- Acyclic means without cycles ----

  ghost function Below(cells: seq<Cell>, n: Id): set<Id> {
    set x: Id | x < |cells| && Reaches(cells, n, x)
  }

  lemma BelowShrinks(cells: seq<Cell>, q: Id, m: Id)
    requires q < |cells| && m < |cells| && m in Held(cells[q]) && !OnCycle(cells, q)
    ensures |Below(cells, m)| < |Below(cells, q)|
  {
    hide Held;
    ReachesItself(cells, q);
    forall x | x in Below(cells, m)
      ensures x in Below(cells, q) && x != q
    {
      ReachesFromAbove(cells, q, m, x);
      var path :| Chain(cells, path) && path[0] == m && path[|path| - 1] == x;
      assert Chain(cells, [q] + path);
    }
    Fewer(Below(cells, m), Below(cells, q), q);
  }

  lemma Fewer(a: set<Id>, b: set<Id>, q: Id)
    requires a <= b && q in b && q !in a
    ensures |a| < |b|
  {
    assert b == a + (b - a) && q in b - a;
  }

  /** A rank can be given to the nodes exactly when none is on a cycle: count what is below each. */
  lemma AcyclicIffNoCycle(cells: seq<Cell>)
    ensures Acyclic(cells) <==> forall c :: !OnCycle(cells, c)
  {
    hide Held, Chain;
    if c :| Acyclic(cells) && OnCycle(cells, c) {
      OnCycleHeld(cells, c);
      AcyclicHasNone(cells, c);
    }
    if forall c :: !OnCycle(cells, c) {
      var rank: seq<nat> := seq(|cells|, q requires 0 <= q < |cells| => |Below(cells, q)|);
      forall p, i | 0 <= p < |cells| && 0 <= i < |Held(cells[p])| && Held(cells[p])[i] < |cells|
        ensures rank[Held(cells[p])[i]] < rank[p]
      {
        BelowShrinks(cells, p, Held(cells[p])[i]);
      }
      assert Ranked(cells, rank);
    }
  }

  /** Freeing keeps every cycle, so it makes no heap acyclic. */
  lemma StoredAcyclic(before: seq<Cell>, after: seq<Cell>, owners: multiset<Id>)
    requires Stored(before, after, owners)
    ensures Acyclic(before) <==> Acyclic(after)
  {
    hide Acyclic, OnCycle, Held;
    if Acyclic(before) {
      AcyclicShrinks(before, after);
    } else {
      AcyclicIffNoCycle(before);
      var c :| OnCycle(before, c);
      CycleIsLive(before, c);
      CycleStored(before, after, owners, c);
      if Acyclic(after) { AcyclicHasNone(after, c); }
    }
  }

  lemma CycleIsLive(cells: seq<Cell>, c: Id)
    requires OnCycle(cells, c)
    ensures c < |cells| && cells[c].Live? && FromCycle(cells, c)
  {
    hide Held, FromCycle;
    OnCycleHeld(cells, c);
    var path :| Chain(cells, path) && |path| > 1 && path[0] == c && path[|path| - 1] == c;
    HolderIsLive(cells, c, path[1]);
  }

  // ---- Whole runs ----

  /** What can be checked before a call: no node about to become a child of p reaches p. */
  ghost predicate ClosesNoCycle(cells: seq<Cell>, op: Op) {
    op.Rewire? ==> forall m :: m in Children(op.slots) && m in op.gained ==> !Reaches(cells, m, op.p)
  }

  lemma StepAcyclic(cells: seq<Cell>, owners: multiset<Id>, op: Op, after: seq<Cell>, ownersAfter: multiset<Id>)
    requires Exact(cells, owners, multiset{}) && Settled(cells) && Acyclic(cells) && Step(cells, owners, op, after, ownersAfter)
    ensures Acyclic(after) <==> ClosesNoCycle(cells, op)
  {
    hide Exact, Acyclic, Stored, Reaches, Children;
    match op
    case Made(kind) => MakeAcyclic(cells, owners, kind);
    case Shared(n) => SameLinksAcyclic(cells, n);
    case Closed(n) => StoredAcyclic(cells, after, ownersAfter);
    case Rewire(p, slots, gained) =>
      StoredAcyclic(Rewired(cells, p, slots), after, ownersAfter);
      RewireKeepsAcyclic(cells, p, slots);
      forall m | m in Children(slots) && m !in gained
        ensures !Reaches(cells, m, p)
      {
        ChildIsBelow(cells, p, m);
      }
  }

  lemma ChildIsBelow(cells: seq<Cell>, p: Id, m: Id)
    requires Acyclic(cells) && p < |cells| && cells[p].Live? && cells[p].count > 0 && m in Children(cells[p].slots)
    ensures !Reaches(cells, m, p)
  {
    hide Children, Acyclic;
    if Reaches(cells, m, p) {
      assert m in Held(cells[p]);
      var path :| Chain(cells, path) && path[0] == m && path[|path| - 1] == p;
      assert Chain(cells, [p] + path);
      assert OnCycle(cells, p);
      AcyclicIffNoCycle(cells);
    }
  }

  /** Over every run from an acyclic heap, all states are acyclic exactly when no operation was given a
      new child that reaches the parent. */
  lemma {:induction false} AcyclicExactly(run: seq<State>, ops: seq<Op>, j: nat)
    requires Run(run, ops) && j < |run| && Acyclic(run[0].cells)
    ensures (forall i :: 0 <= i <= j ==> Acyclic(run[i].cells)) <==> (forall i :: 0 <= i < j ==> ClosesNoCycle(run[i].cells, ops[i]))
  {
    hide Step, Exact, Settled, Acyclic, ClosesNoCycle;
    if j > 0 {
      AcyclicExactly(run, ops, j - 1);
      if Acyclic(run[j - 1].cells) {
        assert Step(run[j - 1].cells, run[j - 1].owners, ops[j - 1], run[j].cells, run[j].owners);
        StepAcyclic(run[j - 1].cells, run[j - 1].owners, ops[j - 1], run[j].cells, run[j].owners);
      }
    }
  }

  /** Over every run of such operations nothing is ever lost: what is alive is what owners reach. */
  lemma NothingIsLost(run: seq<State>, ops: seq<Op>, j: nat, n: Id)
    requires Run(run, ops) && j < |run| && Acyclic(run[0].cells) && n < |run[j].cells|
    requires forall i :: 0 <= i < j ==> ClosesNoCycle(run[i].cells, ops[i])
    ensures run[j].cells[n].Live? <==> Reachable(run[j].cells, run[j].owners, n)
  {
    hide Step, Exact, Settled, Acyclic, ClosesNoCycle, Reachable;
    AcyclicExactly(run, ops, j);
    LiveIffReachable(run[j].cells, run[j].owners, n);
  }

  /** Once nobody holds a handle any more, everything has been freed exactly when no node is on a cycle. */
  lemma AllFreedIffNoCycle(run: seq<State>, ops: seq<Op>, j: nat)
    requires Run(run, ops) && j < |run| && run[j].owners == multiset{}
    ensures (forall n :: 0 <= n < |run[j].cells| ==> !run[j].cells[n].Live?) <==> (forall c :: !OnCycle(run[j].cells, c))
  {
    hide Step, Exact, Settled, OnCycle;
    var cells := run[j].cells;
    if c :| OnCycle(cells, c) {
      CycleIsLive(cells, c);
    }
    if n: Id :| n < |cells| && cells[n].Live? {
      LiveIffHeld(cells, run[j].owners, n);
    }
  }
}
