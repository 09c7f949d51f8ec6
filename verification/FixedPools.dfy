/** The pool as the code keeps it: lists threaded through the free blocks themselves. Each method is
    one step that no other thread can come into, so what it keeps holds in every interleaving. */
module FixedPools {
  import opened ByteStrings
  import opened BlockPools

  type Link = Option<Block>

  datatype ThreadCache = ThreadCache(freeList: Link, count: int)

  // ---- Lists threaded through blocks ----

  /** What the block before index i of a list points to. */
  function LinkTo(list: seq<Block>, i: nat): Link {
    if i < |list| then Some(list[i]) else None
  }

  ghost predicate Chain(next: map<Block, Link>, head: Link, list: seq<Block>) {
    head == LinkTo(list, 0) && forall i :: 0 <= i < |list| ==> list[i] in next && next[list[i]] == LinkTo(list, i + 1)
  }

  lemma ChainPop(next: map<Block, Link>, head: Link, list: seq<Block>)
    requires Chain(next, head, list) && list != []
    ensures head == Some(list[0]) && list[0] in next && Chain(next, next[list[0]], list[1..])
  {
    var r := list[1..];
    assert forall i :: 0 <= i <= |r| ==> LinkTo(r, i) == LinkTo(list, i + 1);
    forall i | 0 <= i < |r|
      ensures r[i] in next && next[r[i]] == LinkTo(r, i + 1)
    {
      assert r[i] == list[i + 1];
    }
  }

  lemma ChainPush(next: map<Block, Link>, head: Link, list: seq<Block>, b: Block)
    requires Chain(next, head, list) && b !in list
    ensures Chain(next[b := head], Some(b), [b] + list)
  {
    var r := [b] + list;
    assert forall i :: 0 <= i <= |list| ==> LinkTo(r, i + 1) == LinkTo(list, i);
    forall i | 0 <= i < |r|
      ensures r[i] in next[b := head] && next[b := head][r[i]] == LinkTo(r, i + 1)
    {
      if i > 0 {
        assert r[i] == list[i - 1];
      } else {
        assert LinkTo(r, 0 + 1) == LinkTo(list, 0);
      }
    }
  }

  lemma ChainOther(next: map<Block, Link>, head: Link, list: seq<Block>, b: Block, x: Link)
    requires Chain(next, head, list) && b !in list
    ensures Chain(next[b := x], head, list)
  {
  }

  class FixedPool {
    var next: map<Block, Link>
    var freeList: Link
    var freeCount: int
    var total: nat
    var chunk: nat
    var caches: seq<ThreadCache>
    ghost var pool: Pool

    ghost predicate Chains()
      reads this
    {
      && Chain(next, freeList, pool.central)
      && |caches| == |pool.caches|
      && forall t :: 0 <= t < |caches| ==> Chain(next, caches[t].freeList, pool.caches[t].list) && caches[t].count == pool.caches[t].count
    }

    ghost predicate Valid()
      reads this
    {
      && Inv(pool) && Chains()
      && freeCount == pool.freeCount && total == pool.total && chunk == pool.chunk
    }

    constructor ()
      ensures Valid() && pool == Fresh
    {
      next, freeList, freeCount, total, chunk, caches := map[], None, 0, 0, 256, [];
      pool := Fresh;
      new;
      FreshInv();
    }

    /** A caller writes into a block it holds: no list depends on it. */
    method Scribble(b: Block, x: Link)
      requires Valid() && b < |pool.place| && pool.place[b] == Out
      modifies this`next
      ensures Valid() && pool == old(pool)
    {
      hide Inv, Chain;
      ListedAt(pool, b);
      ChainOther(next, freeList, pool.central, b, x);
      forall t | 0 <= t < |caches|
        ensures Chain(next[b := x], caches[t].freeList, pool.caches[t].list)
      {
        ChainOther(next, caches[t].freeList, pool.caches[t].list, b, x);
      }
      next := next[b := x];
    }

    /** GetCache, for a thread that has none yet. */
    method AddCache()
      requires Valid()
      modifies this
      ensures Valid() && pool == Next(old(pool), Register)
    {
      hide Inv;
      StepKeeps(pool, Register);
      caches := caches + [ThreadCache(None, 0)];
      pool := Next(pool, Register);
    }

    method TakeOne(t: nat) returns (b: Block)
      requires Chains() && t < |caches| && pool.caches[t].list != []
      modifies this`caches
      ensures |caches| == |old(caches)| && (forall u :: 0 <= u < |caches| && u != t ==> caches[u] == old(caches)[u])
      ensures b == pool.caches[t].list[0] && caches[t].count == old(caches)[t].count - 1
      ensures Chain(next, caches[t].freeList, pool.caches[t].list[1..])
    {
      var c := caches[t];
      ChainPop(next, c.freeList, pool.caches[t].list);
      b := c.freeList.value;
      caches := caches[t := ThreadCache(next[b], c.count - 1)];
    }

    /** The fast path of Alloc. */
    method PopFast(t: nat) returns (b: Block)
      requires Valid() && Enabled(pool, PopLocal(t))
      modifies this
      ensures Valid() && pool == Next(old(pool), PopLocal(t)) && b == old(pool.caches[t].list[0])
    {
      hide Inv, Chain;
      StepKeeps(pool, PopLocal(t));
      b := TakeOne(t);
      pool := Next(pool, PopLocal(t));
    }

    /** The pop at the end of a refill, and the release of the lock. */
    method PopSlow(t: nat) returns (b: Block)
      requires Valid() && Enabled(pool, PopFilled(t))
      modifies this
      ensures Safe(old(pool), PopFilled(t)) && Valid() && pool == Next(old(pool), PopFilled(t)) && b == old(pool.caches[t].list[0])
    {
      hide Inv, Chain;
      StepKeeps(pool, PopFilled(t));
      b := TakeOne(t);
      pool := Next(pool, PopFilled(t));
    }

    /** A block that is in no other list goes to the front of a cache's list. */
    method PushOne(t: nat, b: Block)
      requires t < |caches| == |pool.caches| && Chain(next, caches[t].freeList, pool.caches[t].list) && b !in pool.caches[t].list
      modifies this`next, this`caches
      ensures |caches| == |old(caches)| && (forall u :: 0 <= u < |caches| && u != t ==> caches[u] == old(caches)[u])
      ensures next == old(next)[b := old(caches)[t].freeList] && caches[t].count == old(caches)[t].count + 1
      ensures Chain(next, caches[t].freeList, [b] + pool.caches[t].list)
    {
      hide Chain;
      var c := caches[t];
      ChainPush(next, c.freeList, pool.caches[t].list, b);
      next := next[b := c.freeList];
      caches := caches[t := ThreadCache(Some(b), c.count + 1)];
    }

    lemma OtherChains(b: Block, x: Link, t: nat)
      requires Chains() && forall u :: 0 <= u < |caches| && u != t ==> b !in pool.caches[u].list
      ensures forall u :: 0 <= u < |caches| && u != t ==> Chain(next[b := x], caches[u].freeList, pool.caches[u].list)
    {
      hide Chain;
      forall u | 0 <= u < |caches| && u != t
        ensures Chain(next[b := x], caches[u].freeList, pool.caches[u].list)
      {
        ChainOther(next, caches[u].freeList, pool.caches[u].list, b, x);
      }
    }

    /** The fast path of Free. */
    method PushBlock(t: nat, b: Block)
      requires Valid() && Enabled(pool, Push(t, b))
      modifies this
      ensures Valid() && pool == Next(old(pool), Push(t, b))
    {
      hide Inv, Chain;
      StepKeeps(pool, Push(t, b));
      ListedAt(pool, b);
      OtherChains(b, caches[t].freeList, t);
      ChainOther(next, freeList, pool.central, b, caches[t].freeList);
      PushOne(t, b);
      pool := Next(pool, Push(t, b));
    }

    /** One turn of the refill loop. */
    method MoveOne(t: nat)
      requires Valid() && Enabled(pool, Move(t))
      modifies this
      ensures Valid() && pool == Next(old(pool), Move(t))
    {
      hide Inv, Chain;
      StepKeeps(pool, Move(t));
      ChainPop(next, freeList, pool.central);
      ListedAt(pool, pool.central[0]);
      var b := freeList.value;
      OtherChains(b, caches[t].freeList, t);
      HeadNotAgain(pool.central);
      ChainOther(next, next[b], pool.central[1..], b, caches[t].freeList);
      freeList := next[b];
      freeCount := freeCount - 1;
      PushOne(t, b);
      pool := Next(pool, Move(t));
    }

    static lemma HeadNotAgain(s: seq<Block>)
      requires NoRepeat(s) && s != []
      ensures s[0] !in s[1..]
    {
    }

    /** One turn of the loop that gives blocks back. */
    method ReturnOne(t: nat)
      requires Valid() && Enabled(pool, Return(t))
      modifies this
      ensures Safe(old(pool), Return(t)) && Valid() && pool == Next(old(pool), Return(t))
    {
      hide Inv, Chain;
      StepKeeps(pool, Return(t));
      ListedAt(pool, pool.caches[t].list[0]);
      OtherChains(pool.caches[t].list[0], freeList, t);
      ChainPush(next, freeList, pool.central, pool.caches[t].list[0]);
      HeadNotAgain(pool.caches[t].list);
      var b := TakeOne(t);
      ChainOther(next, caches[t].freeList, pool.caches[t].list[1..], b, freeList);
      next := next[b := freeList];
      freeList := Some(b);
      freeCount := freeCount + 1;
      pool := Next(pool, Return(t));
    }

    /** Free takes the lock to give blocks back. */
    method Lock(t: nat)
      requires Valid() && Enabled(pool, StartReturn(t))
      modifies this`pool
      ensures Valid() && pool == Next(old(pool), StartReturn(t))
    {
      hide Inv, Chain;
      StepKeeps(pool, StartReturn(t));
      pool := Next(pool, StartReturn(t));
    }

    method Unlock(t: nat)
      requires Valid() && Enabled(pool, EndReturn(t))
      modifies this`pool
      ensures Valid() && pool == Next(old(pool), EndReturn(t))
    {
      hide Inv, Chain;
      StepKeeps(pool, EndReturn(t));
      pool := Next(pool, EndReturn(t));
    }

    /** A chunk of new blocks, each put in front of the central list. */
    method GrowPool()
      requires Valid() && pool.central == []
      modifies this
      ensures Valid() && pool == Grow(old(pool))
    {
      hide Inv, Chain, Count;
      GrowKeeps(pool);
      var count := chunk;
      var i := 0;
      CountNone(total);
      while i < count
        invariant 0 <= i <= count && caches == old(caches) && pool == old(pool)
        invariant freeCount == old(freeCount) && total == old(total) && chunk == old(chunk)
        invariant Chain(next, freeList, Count(total, i))
        invariant forall t :: 0 <= t < |caches| ==> Chain(next, caches[t].freeList, pool.caches[t].list)
      {
        var block := total + i;
        ListedAt(pool, block);
        forall t | 0 <= t < |caches|
          ensures Chain(next[block := freeList], caches[t].freeList, pool.caches[t].list)
        {
          ChainOther(next, caches[t].freeList, pool.caches[t].list, block, freeList);
        }
        CountMore(total, i);
        ChainPush(next, freeList, Count(total, i), block);
        next := next[block := freeList];
        freeList := Some(block);
        i := i + 1;
      }
      total := total + count;
      freeCount := freeCount + count;
      chunk := if chunk * 2 < MAX_CHUNK then chunk * 2 else MAX_CHUNK;
      assert Count(old(total), count) + [] == Count(old(total), count);
      pool := Grow(pool);
    }

    static lemma CountNone(from: nat)
      ensures Count(from, 0) == []
    {
    }

    static lemma CountMore(from: nat, n: nat)
      ensures Count(from, n + 1) == [from + n] + Count(from, n) && from + n !in Count(from, n)
    {
    }

    /** Alloc takes the lock to refill, growing an empty pool. */
    method StartRefill(t: nat)
      requires Valid() && Enabled(pool, Refill(t))
      modifies this
      ensures Valid() && pool == Next(old(pool), Refill(t))
    {
      hide Inv, Grow, Chain;
      StepKeeps(pool, Refill(t));
      HeadTells(t);
      ghost var q := Next(pool, Refill(t));
      if freeList.None? {
        GrowKeeps(pool);
        GrowPool();
      }
      pool := q;
    }

    // ---- Alloc and Free, when no other thread comes between ----

    static ghost function OutOf(p: Pool): set<Block> {
      set b | 0 <= b < |p.place| && p.place[b] == Out
    }

    /** Hands out a block that nobody held. */
    method Alloc(t: nat) returns (b: Block)
      requires Valid() && t < |caches| && pool.caches[t].pc == Idle && !pool.locked
      modifies this
      ensures Valid() && |caches| == |old(caches)| && pool.caches[t].pc == Idle && !pool.locked
      ensures b !in OutOf(old(pool)) && OutOf(pool) == OutOf(old(pool)) + {b}
      ensures var p, n := old(pool), |old(pool.caches[t].list)|;
              var there := if p.central == [] then p.chunk else |p.central|;
              && |pool.caches[t].list| == (if n > 0 then n else if there < 128 then there else 128) - 1
              && pool.total == p.total + (if n == 0 && p.central == [] then p.chunk else 0)
    {
      hide Inv, Chain, OutIs, OutOf;
      OutOfIs(pool);
      if caches[t].freeList.Some? {
        HeadTells(t);
        StepKeeps(pool, PopLocal(t));
        OutStep(pool, PopLocal(t), OutOf(pool));
        b := PopFast(t);
        OutOfIs(pool);
        SameOut(pool, OutOf(old(pool)) + {b});
        return;
      }
      HeadTells(t);
      b := AllocSlow(t);
    }

    lemma HeadTells(t: nat)
      requires Chains() && t < |caches|
      ensures caches[t].freeList.Some? <==> pool.caches[t].list != []
      ensures freeList.Some? <==> pool.central != []
    {
    }

    static lemma OutOfIs(p: Pool)
      ensures OutIs(p, OutOf(p))
    {
    }

    static lemma SameOut(p: Pool, s: set<Block>)
      requires OutIs(p, s)
      ensures OutOf(p) == s
    {
    }

    static lemma RefillHas(p: Pool, t: nat)
      requires Enabled(p, Refill(t))
      ensures var q := Next(p, Refill(t));
              && |q.central| == (if p.central == [] then p.chunk else |p.central|)
              && q.total == p.total + (if p.central == [] then p.chunk else 0) && |q.caches[t].list| == 0
    {
      hide Count;
    }

    method AllocSlow(t: nat) returns (b: Block)
      requires Valid() && Enabled(pool, Refill(t))
      modifies this
      ensures Valid() && |caches| == |old(caches)| && pool.caches[t].pc == Idle && !pool.locked
      ensures b !in OutOf(old(pool)) && OutOf(pool) == OutOf(old(pool)) + {b}
      ensures var p := old(pool);
              var there := if p.central == [] then p.chunk else |p.central|;
              && |pool.caches[t].list| == (if there < 128 then there else 128) - 1
              && pool.total == p.total + (if p.central == [] then p.chunk else 0)
    {
      hide Inv, Chain, OutIs, OutOf, Grow;
      ghost var there, all := if pool.central == [] then pool.chunk else |pool.central|, pool.total + if pool.central == [] then pool.chunk else 0;
      RefillHas(pool, t);
      ghost var out := OutOf(pool);
      OutOfIs(pool);
      StepKeeps(pool, Refill(t));
      OutStep(pool, Refill(t), out);
      StartRefill(t);
      var transferred := 0;
      HeadTells(t);
      while freeList.Some? && transferred < BATCH
        invariant Valid() && |caches| == |old(caches)| && t < |caches| && pool.locked
        invariant pool.caches[t].pc == Filling(transferred) && OutIs(pool, out)
        invariant |pool.caches[t].list| == transferred <= BATCH && |pool.central| + transferred == there && pool.total == all
        invariant freeList.Some? <==> pool.central != []
        decreases BATCH - transferred
      {
        StepKeeps(pool, Move(t));
        OutStep(pool, Move(t), out);
        MoveOne(t);
        HeadTells(t);
        transferred := transferred + 1;
      }
      StepKeeps(pool, PopFilled(t));
      OutStep(pool, PopFilled(t), out);
      b := PopSlow(t);
      SameOut(pool, out + {b});
    }

    /** Takes a block back, and leaves no cache above its limit. */
    method Free(t: nat, b: Block)
      requires Valid() && Enabled(pool, Push(t, b)) && !pool.locked
      modifies this
      ensures Valid() && |caches| == |old(caches)| && pool.caches[t].pc == Idle && !pool.locked
      ensures OutOf(pool) == OutOf(old(pool)) - {b} && caches[t].count <= MAX_LOCAL
      ensures var n := |old(pool.caches[t].list)|;
              && |pool.caches[t].list| == (if n < 256 then n + 1 else 129)
              && |pool.central| == |old(pool.central)| + (if n < 256 then 0 else 128) && pool.total == old(pool.total)
    {
      hide Inv, Chain, OutIs, OutOf;
      ghost var out := OutOf(pool) - {b};
      CountIs(t);
      OutOfIs(pool);
      OutStep(pool, Push(t, b), OutOf(pool));
      PushBlock(t, b);
      if caches[t].count > MAX_LOCAL {
        OutStep(pool, StartReturn(t), out);
        Lock(t);
        for i := 0 to RETURNED
          invariant Valid() && |caches| == |old(caches)| && t < |caches| && pool.locked
          invariant pool.caches[t].pc == Returning(i) && OutIs(pool, out) && pool.total == old(pool.total)
          invariant |pool.caches[t].list| == MAX_LOCAL + 1 - i && |pool.central| == |old(pool.central)| + i
        {
          StepKeeps(pool, Return(t));
          OutStep(pool, Return(t), out);
          ReturnOne(t);
        }
        OutStep(pool, EndReturn(t), out);
        Unlock(t);
      }
      SameOut(pool, out);
      CountIs(t);
    }

    lemma CountIs(t: nat)
      requires Valid() && t < |caches|
      ensures caches[t].count == |pool.caches[t].list| && (pool.caches[t].pc == Idle ==> caches[t].count <= MAX_LOCAL)
    {
      hide Holds;
      assert CacheOk(pool, t);
    }

    /** Total and free blocks, as a snapshot. */
    method Stats() returns (all: nat, free: int)
      requires Valid()
      ensures all == pool.total && free == pool.freeCount + SumCounts(pool.caches)
    {
      hide Inv, Chain;
      free := freeCount;
      for i := 0 to |caches|
        invariant free == pool.freeCount + SumCounts(pool.caches[..i])
      {
        assert pool.caches[..i + 1][..i] == pool.caches[..i];
        free := free + caches[i].count;
      }
      assert pool.caches[..|caches|] == pool.caches;
      all := total;
    }
  }
}
