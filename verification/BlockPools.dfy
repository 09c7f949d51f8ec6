/** The block pool of src/data/data_node_pool.h in every interleaving: each thread's Alloc and Free are
    cut where another thread can come between. */
module BlockPools {
  const BATCH: nat := 128
  const MAX_LOCAL: nat := 256
  const RETURNED: nat := 128
  const MAX_CHUNK: nat := 65536

  /** The n-th block ever made. */
  type Block = nat

  /** Where a thread is: outside, refilling under the lock, over the limit and waiting for the lock, or
      giving back under the lock. */
  datatype Pc = Idle | Filling(moved: nat) | Full | Returning(moved: nat)

  datatype Cache = Cache(list: seq<Block>, count: int, pc: Pc)

  datatype Place = Central | Local(t: nat) | Out

  datatype Pool = Pool(
    central: seq<Block>,
    freeCount: int,
    total: nat,
    chunk: nat,               // next_chunk_count_
    caches: seq<Cache>,
    locked: bool,
    place: seq<Place>)        // where each block is

  const Fresh := Pool([], 0, 0, 256, [], false, [])

  datatype Action =
    | Register
    | PopLocal(t: nat)        // Alloc, fast path
    | Refill(t: nat)          // Alloc takes the lock and grows an empty pool
    | Move(t: nat)            // one block from the central list
    | PopFilled(t: nat)       // the pop that ends a refill
    | Push(t: nat, b: Block)  // Free
    | StartReturn(t: nat)
    | Return(t: nat)          // one block back to the central list
    | EndReturn(t: nat)

  predicate Enabled(p: Pool, a: Action) {
    match a
    case Register => true
    case PopLocal(t) => t < |p.caches| && p.caches[t].pc == Idle && p.caches[t].list != []
    case Refill(t) => t < |p.caches| && p.caches[t].pc == Idle && p.caches[t].list == [] && !p.locked
    case Move(t) => t < |p.caches| && p.caches[t].pc.Filling? && p.central != [] && p.caches[t].pc.moved < BATCH
    case PopFilled(t) => t < |p.caches| && p.caches[t].pc.Filling? && !(p.central != [] && p.caches[t].pc.moved < BATCH)
    case Push(t, b) => t < |p.caches| && p.caches[t].pc == Idle && b < |p.place| && p.place[b] == Out
    case StartReturn(t) => t < |p.caches| && p.caches[t].pc == Full && !p.locked
    case Return(t) => t < |p.caches| && p.caches[t].pc.Returning? && p.caches[t].pc.moved < RETURNED
    case EndReturn(t) => t < |p.caches| && p.caches[t].pc.Returning? && p.caches[t].pc.moved == RETURNED
  }

  /** The lists a step takes its block from are not empty. */
  predicate Safe(p: Pool, a: Action) {
    match a
    case PopFilled(t) => t < |p.caches| && p.caches[t].list != []
    case Return(t) => t < |p.caches| && p.caches[t].list != []
    case _ => true
  }

  function Count(from: nat, n: nat): (r: seq<Block>)
    ensures |r| == n
  {
    seq(n, i => from + n - 1 - i)
  }

  /** New blocks go on the central list one by one, so the last of the chunk comes first. */
  function Grow(p: Pool): Pool {
    p.(central := Count(p.total, p.chunk) + p.central, freeCount := p.freeCount + p.chunk, total := p.total + p.chunk,
       chunk := if p.chunk * 2 < MAX_CHUNK then p.chunk * 2 else MAX_CHUNK, place := p.place + seq(p.chunk, _ => Central))
  }

  function Put(place: seq<Place>, b: Block, x: Place): (r: seq<Place>)
    ensures |r| == |place|
  {
    if b < |place| then place[b := x] else place
  }

  function TakeLocal(p: Pool, t: nat): Pool
    requires t < |p.caches| && p.caches[t].list != []
  {
    var c := p.caches[t];
    p.(caches := p.caches[t := Cache(c.list[1..], c.count - 1, Idle)], place := Put(p.place, c.list[0], Out))
  }

  function Next(p: Pool, a: Action): Pool
    requires Enabled(p, a) && Safe(p, a)
  {
    match a
    case Register => p.(caches := p.caches + [Cache([], 0, Idle)])
    case PopLocal(t) => TakeLocal(p, t)
    case Refill(t) =>
      var q := if p.central == [] then Grow(p) else p;
      q.(locked := true, caches := p.caches[t := p.caches[t].(pc := Filling(0))])
    case Move(t) =>
      var c, b := p.caches[t], p.central[0];
      p.(central := p.central[1..], freeCount := p.freeCount - 1, place := Put(p.place, b, Local(t)),
         caches := p.caches[t := Cache([b] + c.list, c.count + 1, Filling(c.pc.moved + 1))])
    case PopFilled(t) => TakeLocal(p, t).(locked := false)
    case Push(t, b) =>
      var c := p.caches[t];
      p.(place := Put(p.place, b, Local(t)),
         caches := p.caches[t := Cache([b] + c.list, c.count + 1, if c.count + 1 > MAX_LOCAL then Full else Idle)])
    case StartReturn(t) => p.(locked := true, caches := p.caches[t := p.caches[t].(pc := Returning(0))])
    case Return(t) =>
      var c := p.caches[t];
      var b := c.list[0];
      p.(caches := p.caches[t := Cache(c.list[1..], c.count - 1, Returning(c.pc.moved + 1))], place := Put(p.place, b, Central),
         central := [b] + p.central, freeCount := p.freeCount + 1)
    case EndReturn(t) => p.(locked := false, caches := p.caches[t := p.caches[t].(pc := Idle)])
  }

  // ---- The invariant ----

  ghost predicate NoRepeat(s: seq<Block>) {
    forall i, j :: 0 <= i < j < |s| ==> s[i] != s[j]
  }

  /** A list holds exactly the blocks of one place, each once. */
  ghost predicate Holds(s: seq<Block>, place: seq<Place>, x: Place) {
    && NoRepeat(s)
    && (forall i :: 0 <= i < |s| ==> s[i] < |place| && place[s[i]] == x)
    && (forall b :: 0 <= b < |place| && place[b] == x ==> b in s)
  }

  /** What each point of the program means for the cache's length. */
  predicate PcOk(c: Cache, central: seq<Block>) {
    && c.count == |c.list|
    && match c.pc
       case Idle => |c.list| <= MAX_LOCAL
       case Full => |c.list| == MAX_LOCAL + 1
       case Filling(n) => |c.list| == n <= BATCH && (n == 0 ==> central != [])
       case Returning(n) => n <= RETURNED && |c.list| == MAX_LOCAL + 1 - n
  }

  predicate Holding(pc: Pc) {
    pc.Filling? || pc.Returning?
  }

  ghost predicate CacheOk(p: Pool, t: nat)
    requires t < |p.caches|
  {
    && Holds(p.caches[t].list, p.place, Local(t)) && PcOk(p.caches[t], p.central)
    && (Holding(p.caches[t].pc) ==> p.locked)
  }

  ghost predicate OneHolds(caches: seq<Cache>) {
    forall t, u :: 0 <= t < u < |caches| ==> !(Holding(caches[t].pc) && Holding(caches[u].pc))
  }

  ghost predicate Inv(p: Pool) {
    && |p.place| == p.total && 0 < p.chunk <= MAX_CHUNK && p.freeCount == |p.central|
    && Holds(p.central, p.place, Central)
    && (forall t :: 0 <= t < |p.caches| ==> CacheOk(p, t))
    && (forall b :: 0 <= b < |p.place| && p.place[b].Local? ==> p.place[b].t < |p.caches|)
    && OneHolds(p.caches)
  }

  lemma InvSafe(p: Pool, a: Action)
    requires Inv(p) && Enabled(p, a)
    ensures Safe(p, a)
  {
    hide Holds, OneHolds;
    if a.PopFilled? || a.Return? {
      assert CacheOk(p, a.t);
    }
  }

  // ---- Blocks change place one at a time ----

  lemma NoRepeatFront(b: Block, s: seq<Block>)
    requires NoRepeat(s) && b !in s
    ensures NoRepeat([b] + s)
  {
  }

  lemma HoldsPush(s: seq<Block>, place: seq<Place>, x: Place, b: Block)
    requires Holds(s, place, x) && b < |place| && place[b] != x
    ensures Holds([b] + s, Put(place, b, x), x)
  {
    hide NoRepeat;
    var r, q := [b] + s, Put(place, b, x);
    NoRepeatFront(b, s);
    forall i | 0 <= i < |r|
      ensures r[i] < |q| && q[r[i]] == x
    {
      if i > 0 { assert r[i] == s[i - 1]; }
    }
    forall c | 0 <= c < |q| && q[c] == x
      ensures c in r
    {
      if c != b { assert c in s; }
    }
  }

  lemma HoldsPop(s: seq<Block>, place: seq<Place>, x: Place, y: Place)
    requires Holds(s, place, x) && s != [] && x != y
    ensures Holds(s[1..], Put(place, s[0], y), x) && s[0] < |place| && place[s[0]] == x
  {
    var q := Put(place, s[0], y);
    forall c | 0 <= c < |q| && q[c] == x
      ensures c in s[1..]
    {
      assert c in s && c != s[0];
    }
  }

  lemma HoldsOther(s: seq<Block>, place: seq<Place>, z: Place, b: Block, x: Place)
    requires Holds(s, place, z) && b < |place| && place[b] != z && x != z
    ensures Holds(s, Put(place, b, x), z)
  {
  }

  lemma HoldsGrow(s: seq<Block>, place: seq<Place>, z: Place, n: nat)
    requires Holds(s, place, z)
    ensures z != Central ==> Holds(s, place + seq(n, _ => Central), z)
    ensures z == Central ==> Holds(Count(|place|, n) + s, place + seq(n, _ => Central), z)
  {
    var q, r := place + seq(n, _ => Central), Count(|place|, n) + s;
    if z == Central {
      assert forall i :: n <= i < |r| ==> r[i] == s[i - n];
      forall c | 0 <= c < |q| && q[c] == z
        ensures c in r
      {
        if c >= |place| {
          assert r[|place| + n - 1 - c] == c;
        } else {
          assert c in s;
        }
      }
    }
  }

  /** One block moves between thread t and another place: the other caches stay in order, unless one of
      them relies on a central list that this step empties. */
  lemma OthersKept(p: Pool, q: Pool, t: nat, b: Block, x: Place)
    requires Inv(p) && t < |p.caches| == |q.caches| && b < |p.place| && q.place == Put(p.place, b, x)
    requires p.place[b] == Local(t) || p.place[b] == Central || p.place[b] == Out
    requires x == Local(t) || x == Central || x == Out
    requires forall u :: 0 <= u < |p.caches| && u != t ==> q.caches[u] == p.caches[u]
    requires Holding(p.caches[t].pc) || q.central == p.central
    requires q.locked == p.locked || Holding(p.caches[t].pc)
    ensures forall u :: 0 <= u < |p.caches| && u != t ==> CacheOk(q, u)
    ensures forall c :: 0 <= c < |q.place| && q.place[c].Local? ==> q.place[c].t < |q.caches|
  {
    hide Holds;
    forall u | 0 <= u < |p.caches| && u != t
      ensures CacheOk(q, u)
    {
      assert CacheOk(p, u);
      HoldsOther(p.caches[u].list, p.place, Local(u), b, x);
      assert Holding(p.caches[t].pc) ==> !Holding(p.caches[u].pc);
    }
  }

  lemma OneHoldsAt(caches: seq<Cache>, t: nat, c: Cache)
    requires OneHolds(caches) && t < |caches|
    requires Holding(c.pc) ==> Holding(caches[t].pc) || forall u :: 0 <= u < |caches| ==> !Holding(caches[u].pc)
    ensures OneHolds(caches[t := c])
  {
  }

  lemma TakeKeeps(p: Pool, t: nat, locked: bool)
    requires Inv(p) && t < |p.caches| && p.caches[t].list != []
    requires (p.caches[t].pc == Idle && locked == p.locked) || (p.caches[t].pc.Filling? && !locked)
    ensures Inv(TakeLocal(p, t).(locked := locked))
  {
    hide Holds, OneHolds;
    var q := TakeLocal(p, t).(locked := locked);
    assert CacheOk(p, t);
    HoldsPop(p.caches[t].list, p.place, Local(t), Out);
    var b := p.caches[t].list[0];
    HoldsOther(p.central, p.place, Central, b, Out);
    OthersKept(p, q, t, b, Out);
    OneHoldsAt(p.caches, t, q.caches[t]);
    assert CacheOk(q, t);
  }

  lemma MoveKeeps(p: Pool, t: nat)
    requires Inv(p) && Enabled(p, Move(t))
    ensures Inv(Next(p, Move(t)))
  {
    hide Holds, OneHolds;
    var q := Next(p, Move(t));
    assert CacheOk(p, t);
    HoldsPop(p.central, p.place, Central, Local(t));
    var b := p.central[0];
    HoldsPush(p.caches[t].list, p.place, Local(t), b);
    OthersKept(p, q, t, b, Local(t));
    OneHoldsAt(p.caches, t, q.caches[t]);
    assert CacheOk(q, t);
  }

  lemma PushKeeps(p: Pool, t: nat, b: Block)
    requires Inv(p) && Enabled(p, Push(t, b))
    ensures Inv(Next(p, Push(t, b)))
  {
    hide Holds, OneHolds;
    var q := Next(p, Push(t, b));
    assert CacheOk(p, t);
    HoldsPush(p.caches[t].list, p.place, Local(t), b);
    HoldsOther(p.central, p.place, Central, b, Local(t));
    OthersKept(p, q, t, b, Local(t));
    OneHoldsAt(p.caches, t, q.caches[t]);
    assert CacheOk(q, t);
  }

  lemma ReturnKeeps(p: Pool, t: nat)
    requires Inv(p) && Enabled(p, Return(t)) && Safe(p, Return(t))
    ensures Inv(Next(p, Return(t)))
  {
    hide Holds, OneHolds;
    var q := Next(p, Return(t));
    assert CacheOk(p, t);
    HoldsPop(p.caches[t].list, p.place, Local(t), Central);
    var b := p.caches[t].list[0];
    HoldsPush(p.central, p.place, Central, b);
    OthersKept(p, q, t, b, Central);
    OneHoldsAt(p.caches, t, q.caches[t]);
    assert CacheOk(q, t);
  }

  /** A free lock means that no thread is inside. */
  lemma NobodyInside(p: Pool)
    requires Inv(p) && !p.locked
    ensures forall u :: 0 <= u < |p.caches| ==> !Holding(p.caches[u].pc)
  {
    hide Holds, OneHolds;
    forall u | 0 <= u < |p.caches|
      ensures !Holding(p.caches[u].pc)
    {
      assert CacheOk(p, u);
    }
  }

  lemma GrowKeeps(p: Pool)
    requires Inv(p) && p.central == []
    ensures Inv(Grow(p)) && Grow(p).central != [] && Grow(p).caches == p.caches && Grow(p).locked == p.locked
  {
    hide Holds, OneHolds;
    var q := Grow(p);
    HoldsGrow(p.central, p.place, Central, p.chunk);
    forall u | 0 <= u < |p.caches|
      ensures CacheOk(q, u)
    {
      assert CacheOk(p, u);
      HoldsGrow(p.caches[u].list, p.place, Local(u), p.chunk);
    }
  }

  /** Taking or leaving the lock changes the thread's point and nothing else. */
  lemma PointKeeps(p: Pool, t: nat, pc: Pc, locked: bool)
    requires Inv(p) && t < |p.caches| && PcOk(p.caches[t].(pc := pc), p.central)
    requires (!p.locked && locked && Holding(pc)) || (Holding(p.caches[t].pc) && !locked && !Holding(pc))
    ensures Inv(p.(locked := locked, caches := p.caches[t := p.caches[t].(pc := pc)]))
  {
    hide Holds, OneHolds;
    var q := p.(locked := locked, caches := p.caches[t := p.caches[t].(pc := pc)]);
    if !p.locked { NobodyInside(p); }
    OneHoldsAt(p.caches, t, q.caches[t]);
    OnlyOne(p, t);
    forall u | 0 <= u < |p.caches|
      ensures CacheOk(q, u)
    {
      assert CacheOk(p, u);
    }
  }

  lemma OnlyOne(p: Pool, t: nat)
    requires Inv(p) && t < |p.caches|
    ensures Holding(p.caches[t].pc) ==> forall u :: 0 <= u < |p.caches| && u != t ==> !Holding(p.caches[u].pc)
  {
  }

  lemma RegisterKeeps(p: Pool)
    requires Inv(p)
    ensures Inv(Next(p, Register))
  {
    hide Holds, OneHolds;
    var q := Next(p, Register);
    NewHolds(p.place, |p.caches|);
    NewOneHolds(p.caches);
    forall u | 0 <= u < |q.caches|
      ensures CacheOk(q, u)
    {
      if u < |p.caches| { assert CacheOk(p, u); }
    }
  }

  lemma NewHolds(place: seq<Place>, t: nat)
    requires forall b :: 0 <= b < |place| && place[b].Local? ==> place[b].t < t
    ensures Holds([], place, Local(t))
  {
  }

  lemma NewOneHolds(caches: seq<Cache>)
    requires OneHolds(caches)
    ensures OneHolds(caches + [Cache([], 0, Idle)])
  {
  }

  lemma StepKeeps(p: Pool, a: Action)
    requires Inv(p) && Enabled(p, a)
    ensures Safe(p, a) && Inv(Next(p, a))
  {
    hide Holds, OneHolds;
    InvSafe(p, a);
    match a
    case Register => RegisterKeeps(p);
    case PopLocal(t) => TakeKeeps(p, t, p.locked);
    case Refill(t) => RefillKeeps(p, t);
    case Move(t) => MoveKeeps(p, t);
    case PopFilled(t) => TakeKeeps(p, t, false);
    case Push(t, b) => PushKeeps(p, t, b);
    case StartReturn(t) =>
      assert CacheOk(p, t);
      PointKeeps(p, t, Returning(0), true);
    case Return(t) => ReturnKeeps(p, t);
    case EndReturn(t) =>
      assert CacheOk(p, t);
      PointKeeps(p, t, Idle, false);
  }

  lemma RefillKeeps(p: Pool, t: nat)
    requires Inv(p) && Enabled(p, Refill(t))
    ensures Inv(Next(p, Refill(t)))
  {
    hide Holds, OneHolds, Grow;
    assert CacheOk(p, t);
    if p.central == [] { GrowKeeps(p); }
    PointKeeps(if p.central == [] then Grow(p) else p, t, Filling(0), true);
  }

  lemma FreshInv()
    ensures Inv(Fresh)
  {
  }

  // ---- Whole runs ----

  ghost predicate Run(run: seq<Pool>, acts: seq<Action>) {
    && |run| == |acts| + 1 && run[0] == Fresh
    && forall i :: 0 <= i < |acts| ==> Enabled(run[i], acts[i]) && (Safe(run[i], acts[i]) ==> run[i + 1] == Next(run[i], acts[i]))
  }

  lemma {:induction false} RunKeeps(run: seq<Pool>, acts: seq<Action>, i: nat)
    requires Run(run, acts) && i < |run|
    ensures Inv(run[i])
  {
    hide Inv, Next, Enabled, Safe;
    if i == 0 {
      FreshInv();
    } else {
      RunKeeps(run, acts, i - 1);
      StepKeeps(run[i - 1], acts[i - 1]);
    }
  }

  /** The blocks with the callers: what the pops of Alloc gave out and Free has not taken back. */
  ghost function Handed(run: seq<Pool>, acts: seq<Action>, i: nat): set<Block>
    requires i <= |acts| < |run|
  {
    if i == 0 then {}
    else
      var rest, p, a := Handed(run, acts, i - 1), run[i - 1], acts[i - 1];
      match a
      case PopLocal(t) => if t < |p.caches| && p.caches[t].list != [] then rest + {p.caches[t].list[0]} else rest
      case PopFilled(t) => if t < |p.caches| && p.caches[t].list != [] then rest + {p.caches[t].list[0]} else rest
      case Push(_, b) => rest - {b}
      case _ => rest
  }

  ghost predicate OutIs(p: Pool, handed: set<Block>) {
    forall b :: b in handed <==> 0 <= b < |p.place| && p.place[b] == Out
  }

  lemma OutStep(p: Pool, a: Action, handed: set<Block>)
    requires Inv(p) && Enabled(p, a) && Safe(p, a) && OutIs(p, handed)
    ensures (a.PopLocal? || a.PopFilled?) ==> OutIs(Next(p, a), handed + {p.caches[a.t].list[0]}) && p.caches[a.t].list[0] !in handed
    ensures a.Push? ==> OutIs(Next(p, a), handed - {a.b}) && a.b in handed
    ensures !a.PopLocal? && !a.PopFilled? && !a.Push? ==> OutIs(Next(p, a), handed)
  {
    hide OneHolds, NoRepeat;
    if !a.Register? {
      assert CacheOk(p, a.t);
    }
  }

  lemma {:induction false} HandedIsOut(run: seq<Pool>, acts: seq<Action>, i: nat)
    requires Run(run, acts) && i <= |acts|
    ensures Inv(run[i]) && OutIs(run[i], Handed(run, acts, i))
  {
    hide Inv, Next, OutIs;
    RunKeeps(run, acts, i);
    if i == 0 {
      NoneOut();
    } else {
      HandedIsOut(run, acts, i - 1);
      StepKeeps(run[i - 1], acts[i - 1]);
      OutStep(run[i - 1], acts[i - 1], Handed(run, acts, i - 1));
    }
  }

  lemma NoneOut()
    ensures OutIs(Fresh, {})
  {
  }

  /** In every interleaving the central list, the caches and the blocks handed out are pairwise
      disjoint, hold no block twice, and together hold exactly the blocks ever grown. */
  lemma EveryBlockInOnePlace(run: seq<Pool>, acts: seq<Action>, i: nat, b: Block)
    requires Run(run, acts) && i <= |acts|
    ensures var p, out := run[i], Handed(run, acts, i);
            && (b < p.total <==> b in p.central || b in out || exists t :: 0 <= t < |p.caches| && b in p.caches[t].list)
            && !(b in p.central && b in out)
            && (forall t :: 0 <= t < |p.caches| && b in p.caches[t].list ==> b !in p.central && b !in out)
            && (forall t, u :: 0 <= t < u < |p.caches| ==> !(b in p.caches[t].list && b in p.caches[u].list))
            && NoRepeat(p.central) && forall t :: 0 <= t < |p.caches| ==> NoRepeat(p.caches[t].list)
  {
    hide Handed, Inv, Next, Enabled, Safe;
    HandedIsOut(run, acts, i);
    ListedAt(run[i], b);
  }

  /** A list holds a block exactly when that is its place. */
  lemma ListedAt(p: Pool, b: Block)
    requires Inv(p)
    ensures |p.place| == p.total && NoRepeat(p.central)
    ensures b in p.central <==> b < p.total && p.place[b] == Central
    ensures forall t :: 0 <= t < |p.caches| ==> NoRepeat(p.caches[t].list) && (b in p.caches[t].list <==> b < p.total && p.place[b] == Local(t))
    ensures b < p.total && p.place[b].Local? ==> p.place[b].t < |p.caches|
  {
    hide NoRepeat, OneHolds;
    forall t | 0 <= t < |p.caches|
      ensures NoRepeat(p.caches[t].list) && (b in p.caches[t].list <==> b < p.total && p.place[b] == Local(t))
    {
      assert CacheOk(p, t);
    }
  }

  /** Every counter is the length of its list; no cache holds more than 256 blocks, or 257 while a Free
      that is about to give some back waits for the lock; and no pop finds its list empty. */
  lemma CountersMatch(run: seq<Pool>, acts: seq<Action>, i: nat, t: nat)
    requires Run(run, acts) && i < |run| && t < |run[i].caches|
    ensures run[i].freeCount == |run[i].central| && run[i].caches[t].count == |run[i].caches[t].list|
    ensures |run[i].caches[t].list| <= MAX_LOCAL + if run[i].caches[t].pc == Full || run[i].caches[t].pc == Returning(0) then 1 else 0
    ensures i < |acts| ==> Safe(run[i], acts[i])
  {
    hide Holds, OneHolds, Run;
    RunKeeps(run, acts, i);
    assert CacheOk(run[i], t);
    assert i < |acts| ==> Enabled(run[i], acts[i]) by { RunEnabled(run, acts, i); }
    if i < |acts| { InvSafe(run[i], acts[i]); }
  }

  lemma RunEnabled(run: seq<Pool>, acts: seq<Action>, i: nat)
    requires Run(run, acts)
    ensures i < |acts| ==> Enabled(run[i], acts[i])
  {
  }

  // ---- Stats ----

  function SumCounts(caches: seq<Cache>): int {
    if caches == [] then 0 else SumCounts(caches[..|caches| - 1]) + caches[|caches| - 1].count
  }

  lemma {:induction false} SumAt(caches: seq<Cache>, t: nat, c: Cache)
    requires t < |caches|
    ensures SumCounts(caches[t := c]) == SumCounts(caches) - caches[t].count + c.count
  {
    var n := |caches| - 1;
    if t == n {
      assert caches[t := c][..n] == caches[..n];
    } else {
      assert caches[t := c][..n] == caches[..n][t := c];
      SumAt(caches[..n], t, c);
    }
  }

  lemma SumMore(caches: seq<Cache>, c: Cache)
    ensures SumCounts(caches + [c]) == SumCounts(caches) + c.count
  {
    assert (caches + [c])[..|caches|] == caches;
  }

  lemma SumStep(p: Pool, a: Action)
    requires Inv(p) && Enabled(p, a) && Safe(p, a)
    ensures var q := Next(p, a);
            q.total - q.freeCount - SumCounts(q.caches) ==
            p.total - p.freeCount - SumCounts(p.caches) + if a.PopLocal? || a.PopFilled? then 1 else if a.Push? then -1 else 0
  {
    hide SumCounts, Inv, Count;
    var q := Next(p, a);
    if a.Register? {
      SumMore(p.caches, Cache([], 0, Idle));
    } else {
      SumAt(p.caches, a.t, q.caches[a.t]);
    }
  }

  /** In every state of every run, the free blocks Stats adds up are those grown less those handed
      out. */
  lemma {:induction false} FreeIsTotalLessHanded(run: seq<Pool>, acts: seq<Action>, i: nat)
    requires Run(run, acts) && i <= |acts|
    ensures run[i].freeCount + SumCounts(run[i].caches) == run[i].total - |Handed(run, acts, i)|
  {
    hide Inv, Next, OutIs;
    if i > 0 {
      FreeIsTotalLessHanded(run, acts, i - 1);
      HandedIsOut(run, acts, i - 1);
      StepKeeps(run[i - 1], acts[i - 1]);
      OutStep(run[i - 1], acts[i - 1], Handed(run, acts, i - 1));
      SumStep(run[i - 1], acts[i - 1]);
    }
  }
}
