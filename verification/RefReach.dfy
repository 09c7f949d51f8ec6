/** Which nodes owners can reach and which only cycles hold, and that dropping references frees exactly
    the others. */
module RefReach {
  import opened RefCounts

  /** A chain of slots, each node held by the one before it. */
  ghost predicate Chain(cells: seq<Cell>, path: seq<Id>): (r: bool)
    ensures r ==> path != []
  {
    && path != []
    && (forall i :: 0 <= i < |path| ==> path[i] < |cells|)
    && forall i :: 0 <= i < |path| - 1 ==> path[i + 1] in Held(cells[path[i]])
  }

  ghost predicate Reaches(cells: seq<Cell>, from: Id, to: Id) {
    exists path :: Chain(cells, path) && path[0] == from && path[|path| - 1] == to
  }

  ghost predicate Reachable(cells: seq<Cell>, owners: multiset<Id>, n: Id) {
    exists o :: o in owners && Reaches(cells, o, n)
  }

  ghost predicate Ranked(cells: seq<Cell>, rank: seq<nat>) {
    && |rank| == |cells|
    && forall p, i :: 0 <= p < |cells| && 0 <= i < |Held(cells[p])| && Held(cells[p])[i] < |cells| ==> rank[Held(cells[p])[i]] < rank[p]
  }

  /** No node is below itself. */
  ghost predicate Acyclic(cells: seq<Cell>) {
    exists rank :: Ranked(cells, rank)
  }

  lemma ReachesItself(cells: seq<Cell>, n: Id)
    requires n < |cells|
    ensures Reaches(cells, n, n)
  {
    assert Chain(cells, [n]);
  }

  lemma ReachesFurther(cells: seq<Cell>, from: Id, p: Id, n: Id)
    requires InRange(cells) && Reaches(cells, from, p) && n in Held(cells[p])
    ensures n < |cells| && Reaches(cells, from, n)
  {
    hide Held;
    var path :| Chain(cells, path) && path[0] == from && path[|path| - 1] == p;
    var i :| 0 <= i < |Held(cells[p])| && Held(cells[p])[i] == n;
    var longer := path + [n];
    assert Chain(cells, longer);
    assert longer[0] == from && longer[|longer| - 1] == n;
  }

  lemma HolderIsLive(cells: seq<Cell>, p: Id, n: Id)
    requires p < |cells| && n in Held(cells[p])
    ensures cells[p].Live? && cells[p].count > 0
  {
  }

  /** What is reachable is alive: go down from an owner. */
  lemma {:induction false} ChainIsLive(cells: seq<Cell>, owners: multiset<Id>, path: seq<Id>, k: nat)
    requires Exact(cells, owners, multiset{}) && Chain(cells, path) && path[0] in owners && k < |path|
    ensures cells[path[k]].Live?
  {
    hide Held;
    if k > 0 {
      ChainIsLive(cells, owners, path, k - 1);
      HeldIsCounted(cells, |cells|, path[k - 1], path[k]);
    }
  }

  lemma AcyclicShrinks(before: seq<Cell>, after: seq<Cell>)
    requires Shrinks(before, after) && Acyclic(before)
    ensures Acyclic(after)
  {
    var rank :| Ranked(before, rank);
    forall p, i | 0 <= p < |after| && 0 <= i < |Held(after[p])| && Held(after[p])[i] < |after|
      ensures rank[Held(after[p])[i]] < rank[p]
    {
      assert Held(after[p]) == Held(before[p]);
    }
    assert Ranked(after, rank);
  }

  /** Between a heap and what is left of it the chains from an owner are the same. */
  lemma SameChains(before: seq<Cell>, after: seq<Cell>, path: seq<Id>)
    requires Shrinks(before, after) && Chain(after, path)
    ensures Chain(before, path)
  {
    forall i | 0 <= i < |path| - 1 ensures path[i + 1] in Held(before[path[i]]) {
      assert path[i + 1] in Held(after[path[i]]);
      assert Held(after[path[i]]) == Held(before[path[i]]);
    }
  }

  lemma {:induction false} ChainSurvives(before: seq<Cell>, after: seq<Cell>, owners: multiset<Id>, path: seq<Id>, k: nat)
    requires Shrinks(before, after) && Settled(before) && Exact(after, owners, multiset{})
    requires Chain(before, path) && path[0] in owners && k < |path|
    ensures after[path[k]].Live?
  {
    hide SlotsHolding;
    if k > 0 {
      ChainSurvives(before, after, owners, path, k - 1);
      assert path[k] in Held(before[path[k - 1]]);
      assert Held(after[path[k - 1]]) == Held(before[path[k - 1]]);
      HeldIsCounted(after, |after|, path[k - 1], path[k]);
    }
  }

  // ---- Cycles ----

  ghost predicate OnCycle(cells: seq<Cell>, c: Id) {
    exists path :: Chain(cells, path) && |path| > 1 && path[0] == c && path[|path| - 1] == c
  }

  /** Held, at some distance, by a node on a cycle. */
  ghost predicate FromCycle(cells: seq<Cell>, n: Id) {
    exists c :: OnCycle(cells, c) && Reaches(cells, c, n)
  }

  lemma PartOfChain(cells: seq<Cell>, path: seq<Id>, i: nat, j: nat)
    requires Chain(cells, path) && i < j <= |path|
    ensures Chain(cells, path[i..j]) && path[i..j][0] == path[i] && path[i..j][j - i - 1] == path[j - 1]
    ensures Reaches(cells, path[i], path[j - 1])
  {
    hide Held;
    var part := path[i..j];
    forall k | 0 <= k < |part| - 1
      ensures part[k + 1] in Held(cells[part[k]])
    {
      assert part[k] == path[i + k] && part[k + 1] == path[i + k + 1];
    }
  }

  lemma ReachesOn(cells: seq<Cell>, a: Id, b: Id, c: Id)
    requires Reaches(cells, a, b) && Reaches(cells, b, c)
    ensures Reaches(cells, a, c)
  {
    hide Held;
    var p :| Chain(cells, p) && p[0] == a && p[|p| - 1] == b;
    var q :| Chain(cells, q) && q[0] == b && q[|q| - 1] == c;
    var r := p + q[1..];
    forall k | 0 <= k < |r| - 1
      ensures r[k + 1] in Held(cells[r[k]])
    {
      if k < |p| - 1 {
        assert r[k] == p[k] && r[k + 1] == p[k + 1];
      } else {
        assert r[k] == q[k - |p| + 1] && r[k + 1] == q[k - |p| + 2];
      }
    }
    assert Chain(cells, r);
  }

  /** Up from holder to holder, until an owner or for as long as asked. */
  lemma {:induction false} WalkUp(cells: seq<Cell>, owners: multiset<Id>, n: Id, len: nat) returns (path: seq<Id>)
    requires Exact(cells, owners, multiset{}) && Settled(cells) && n < |cells| && cells[n].Live? && len > 0
    ensures Chain(cells, path) && path[|path| - 1] == n && (path[0] in owners || |path| == len)
    decreases len
  {
    hide Held, SlotsHolding;
    path := [n];
    if len > 1 && n !in owners {
      var p, i := SlotsHoldingPositive(cells, |cells|, n);
      HolderIsLive(cells, p, n);
      path := WalkUp(cells, owners, p, len - 1);
      path := path + [n];
    }
  }

  lemma {:induction false} AtMost(s: set<Id>, bound: nat)
    requires forall x :: x in s ==> x < bound
    ensures |s| <= bound
  {
    if bound == 0 {
      assert s == {};
    } else {
      AtMost(s - {bound - 1}, bound - 1);
    }
  }

  lemma {:induction false} DistinctCount(path: seq<Id>)
    requires forall i, j :: 0 <= i < j < |path| ==> path[i] != path[j]
    ensures |set i | 0 <= i < |path| :: path[i]| == |path|
  {
    if path != [] {
      var k := |path| - 1;
      DistinctCount(path[..k]);
      assert (set i | 0 <= i < |path| :: path[i]) == (set i | 0 <= i < k :: path[..k][i]) + {path[k]};
    }
  }

  lemma Repeats(path: seq<Id>, bound: nat) returns (i: nat, j: nat)
    requires |path| > bound && forall k :: 0 <= k < |path| ==> path[k] < bound
    ensures i < j < |path| && path[i] == path[j]
  {
    assert exists i, j :: 0 <= i < j < |path| && path[i] == path[j] by {
      AtMost(set k | 0 <= k < |path| :: path[k], bound);
      if forall i, j :: 0 <= i < j < |path| ==> path[i] != path[j] {
        DistinctCount(path);
      }
    }
    i, j :| 0 <= i < j < |path| && path[i] == path[j];
  }

  /** What is alive is held in the end by an owner or by a cycle: going up, one of the two comes. */
  lemma LiveIsHeld(cells: seq<Cell>, owners: multiset<Id>, n: Id)
    requires Exact(cells, owners, multiset{}) && Settled(cells) && n < |cells| && cells[n].Live?
    ensures Reachable(cells, owners, n) || FromCycle(cells, n)
  {
    hide Held, Exact, Settled, Chain;
    var path := WalkUp(cells, owners, n, |cells| + 1);
    var last := |path| - 1;
    if path[0] in owners {
      PartOfChain(cells, path, 0, |path|);
    } else {
      ChainInRange(cells, path);
      var i, j := Repeats(path, |cells|);
      PartOfChain(cells, path, i, j + 1);
      PartOfChain(cells, path, i, |path|);
      assert OnCycle(cells, path[i]);
    }
  }

  lemma ChainInRange(cells: seq<Cell>, path: seq<Id>)
    requires Chain(cells, path)
    ensures forall k :: 0 <= k < |path| ==> path[k] < |cells|
  {
  }

  /** Whatever a cycle holds has a holder that the cycle holds too. */
  lemma HolderFromCycle(cells: seq<Cell>, n: Id) returns (p: Id)
    requires FromCycle(cells, n)
    ensures p < |cells| && n in Held(cells[p]) && FromCycle(cells, p)
  {
    hide Held;
    var c :| OnCycle(cells, c) && Reaches(cells, c, n);
    var path :| Chain(cells, path) && path[0] == c && path[|path| - 1] == n;
    if |path| == 1 {
      path :| Chain(cells, path) && |path| > 1 && path[0] == c && path[|path| - 1] == c;
    }
    p := path[|path| - 2];
    PartOfChain(cells, path, 0, |path| - 1);
  }

  lemma HeldIsLive(cells: seq<Cell>, owners: multiset<Id>, dropping: multiset<Id>, p: Id, n: Id)
    requires Exact(cells, owners, dropping) && p < |cells| && n in Held(cells[p])
    ensures n < |cells| && cells[n].Live? && cells[n].count > 0
  {
    hide SlotsHolding;
    var i :| 0 <= i < |Held(cells[p])| && Held(cells[p])[i] == n;
    HeldIsCounted(cells, |cells|, p, n);
  }

  /** With exact counts, on any heap, the nodes alive are those that an owner or a cycle holds. */
  lemma LiveIffHeld(cells: seq<Cell>, owners: multiset<Id>, n: Id)
    requires Exact(cells, owners, multiset{}) && Settled(cells) && n < |cells|
    ensures cells[n].Live? <==> Reachable(cells, owners, n) || FromCycle(cells, n)
  {
    hide Exact, Settled, Chain, Held, FromCycle;
    if cells[n].Live? {
      LiveIsHeld(cells, owners, n);
    }
    if Reachable(cells, owners, n) {
      var o :| o in owners && Reaches(cells, o, n);
      var path :| Chain(cells, path) && path[0] == o && path[|path| - 1] == n;
      ChainIsLive(cells, owners, path, |path| - 1);
    }
    if FromCycle(cells, n) {
      var p := HolderFromCycle(cells, n);
      HeldIsLive(cells, owners, multiset{}, p, n);
    }
  }

  /** So every live node is reachable if and only if every node on a cycle is. */
  lemma NoneLostIffCyclesReachable(cells: seq<Cell>, owners: multiset<Id>)
    requires Exact(cells, owners, multiset{}) && Settled(cells)
    ensures (forall n :: 0 <= n < |cells| && cells[n].Live? ==> Reachable(cells, owners, n))
       <==> (forall c :: OnCycle(cells, c) ==> Reachable(cells, owners, c))
  {
    hide Exact, Settled, Chain, Held;
    if forall n :: 0 <= n < |cells| && cells[n].Live? ==> Reachable(cells, owners, n) {
      forall c | OnCycle(cells, c)
        ensures Reachable(cells, owners, c)
      {
        OnCycleHeld(cells, c);
        LiveIffHeld(cells, owners, c);
      }
    }
    if forall c :: OnCycle(cells, c) ==> Reachable(cells, owners, c) {
      forall n | 0 <= n < |cells| && cells[n].Live?
        ensures Reachable(cells, owners, n)
      {
        LiveIsHeld(cells, owners, n);
        if FromCycle(cells, n) {
          var c :| OnCycle(cells, c) && Reaches(cells, c, n);
          var o :| o in owners && Reaches(cells, o, c);
          ReachesOn(cells, o, c, n);
        }
      }
    }
  }

  lemma OnCycleHeld(cells: seq<Cell>, c: Id)
    requires OnCycle(cells, c)
    ensures c < |cells| && FromCycle(cells, c)
  {
    hide Held;
    ReachesItself(cells, c);
  }

  lemma AcyclicHasNone(cells: seq<Cell>, n: Id)
    requires Acyclic(cells)
    ensures !FromCycle(cells, n)
  {
    hide Held, Ranked, Chain;
    var rank :| Ranked(cells, rank);
    if FromCycle(cells, n) {
      var c :| OnCycle(cells, c) && Reaches(cells, c, n);
      var path :| Chain(cells, path) && |path| > 1 && path[0] == c && path[|path| - 1] == c;
      RankFallsAlong(cells, rank, path, |path| - 1);
    }
  }

  lemma {:induction false} RankFallsAlong(cells: seq<Cell>, rank: seq<nat>, path: seq<Id>, k: nat)
    requires Ranked(cells, rank) && Chain(cells, path) && 0 < k < |path|
    ensures rank[path[k]] < rank[path[0]]
  {
    hide Held;
    RankFallsAt(cells, rank, path[k - 1], path[k]);
    if k > 1 {
      RankFallsAlong(cells, rank, path, k - 1);
    }
  }

  /** Exact counts on an acyclic heap mean that the nodes alive are those an owner can reach. */
  lemma LiveIffReachable(cells: seq<Cell>, owners: multiset<Id>, n: Id)
    requires Exact(cells, owners, multiset{}) && Settled(cells) && Acyclic(cells) && n < |cells|
    ensures cells[n].Live? <==> Reachable(cells, owners, n)
  {
    hide Exact, Settled, Acyclic, FromCycle, Reachable;
    LiveIffHeld(cells, owners, n);
    AcyclicHasNone(cells, n);
  }

  // ---- What a step frees ----

  /** Of the nodes before, exactly those that an owner or a cycle still holds are left. */
  ghost predicate FreedExactly(before: seq<Cell>, after: seq<Cell>, owners: multiset<Id>) {
    && |after| == |before|
    && forall n :: 0 <= n < |before| ==> (after[n].Live? <==> before[n].Live? && (Reachable(before, owners, n) || FromCycle(before, n)))
  }

  /** A set of live nodes each of which one of them holds. */
  ghost predicate SelfHeld(cells: seq<Cell>, keep: set<Id>) {
    forall n :: n in keep ==> HeldFrom(cells, keep, n)
  }

  ghost predicate HeldFrom(cells: seq<Cell>, keep: set<Id>, n: Id) {
    && n < |cells| && cells[n].Live? && cells[n].count > 0
    && exists p :: p in keep && p < |cells| && n in Held(cells[p])
  }

  ghost function CycleSet(cells: seq<Cell>): set<Id> {
    set n | 0 <= n < |cells| && FromCycle(cells, n)
  }

  lemma CyclesHoldThemselves(cells: seq<Cell>, owners: multiset<Id>, dropping: multiset<Id>)
    requires Exact(cells, owners, dropping)
    ensures SelfHeld(cells, CycleSet(cells))
  {
    hide Exact, FromCycle, Held;
    forall n | n in CycleSet(cells)
      ensures HeldFrom(cells, CycleSet(cells), n)
    {
      var p := HolderFromCycle(cells, n);
      HeldIsLive(cells, owners, dropping, p, n);
    }
  }

  lemma FreesExactly(before: seq<Cell>, after: seq<Cell>, owners: multiset<Id>)
    requires Shrinks(before, after) && Settled(before) && Settled(after) && Exact(after, owners, multiset{})
    requires SelfHeld(after, CycleSet(before))
    ensures FreedExactly(before, after, owners)
  {
    forall n | 0 <= n < |before|
      ensures after[n].Live? <==> before[n].Live? && (Reachable(before, owners, n) || FromCycle(before, n))
    {
      FreedOrNot(before, after, owners, n);
    }
  }

  lemma FreedOrNot(before: seq<Cell>, after: seq<Cell>, owners: multiset<Id>, n: Id)
    requires Shrinks(before, after) && Settled(before) && Settled(after) && Exact(after, owners, multiset{}) && n < |before|
    requires SelfHeld(after, CycleSet(before))
    ensures after[n].Live? <==> before[n].Live? && (Reachable(before, owners, n) || FromCycle(before, n))
  {
    hide Exact, Settled, Chain, Held, FromCycle;
    LiveIffHeld(after, owners, n);
    if Reachable(after, owners, n) {
      var o :| o in owners && Reaches(after, o, n);
      SameReaches(before, after, o, n);
    }
    if FromCycle(after, n) {
      SameFromCycle(before, after, n);
    }
    if Reachable(before, owners, n) {
      var o :| o in owners && Reaches(before, o, n);
      var path :| Chain(before, path) && path[0] == o && path[|path| - 1] == n;
      ChainSurvives(before, after, owners, path, |path| - 1);
    }
    if FromCycle(before, n) {
      assert n in CycleSet(before);
      assert HeldFrom(after, CycleSet(before), n);
    }
  }

  lemma SameReaches(before: seq<Cell>, after: seq<Cell>, a: Id, b: Id)
    requires Shrinks(before, after) && Reaches(after, a, b)
    ensures Reaches(before, a, b)
  {
    hide Held, Shrinks;
    var path :| Chain(after, path) && path[0] == a && path[|path| - 1] == b;
    SameChains(before, after, path);
  }

  lemma SameFromCycle(before: seq<Cell>, after: seq<Cell>, n: Id)
    requires Shrinks(before, after) && FromCycle(after, n)
    ensures FromCycle(before, n)
  {
    hide Held, Shrinks, Chain;
    var c :| OnCycle(after, c) && Reaches(after, c, n);
    SameReaches(before, after, c, n);
    var path :| Chain(after, path) && |path| > 1 && path[0] == c && path[|path| - 1] == c;
    SameChains(before, after, path);
    assert OnCycle(before, c);
  }

  /** On an acyclic heap that is: exactly what owners can still reach is left, and the rest is acyclic. */
  lemma FreesUnreachable(before: seq<Cell>, after: seq<Cell>, owners: multiset<Id>, n: Id)
    requires Shrinks(before, after) && FreedExactly(before, after, owners) && Acyclic(before) && n < |before|
    ensures after[n].Live? <==> before[n].Live? && Reachable(before, owners, n)
    ensures Acyclic(after)
  {
    hide FromCycle, Reachable, Acyclic;
    AcyclicHasNone(before, n);
    AcyclicShrinks(before, after);
  }

  // ---- Ranks and links ----

  lemma RankFallsAt(cells: seq<Cell>, rank: seq<nat>, p: Id, n: Id)
    requires Ranked(cells, rank) && p < |cells| && n < |cells| && n in Held(cells[p])
    ensures rank[n] < rank[p]
  {
    hide Held;
    var i :| 0 <= i < |Held(cells[p])| && Held(cells[p])[i] == n;
  }

  lemma ReachesFromAbove(cells: seq<Cell>, q: Id, m: Id, p: Id)
    requires q < |cells| && m in Held(cells[q]) && Reaches(cells, m, p)
    ensures Reaches(cells, q, p)
  {
    hide Held;
    var path :| Chain(cells, path) && path[0] == m && path[|path| - 1] == p;
    var longer := [q] + path;
    assert Chain(cells, longer);
    assert longer[0] == q && longer[|longer| - 1] == p;
  }
}
