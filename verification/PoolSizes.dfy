/** How many blocks the pool moves and makes, and which block comes next, in every interleaving. */
module PoolSizes {
  import opened BlockPools

  // ---- Growing ----

  function PowerOfTwo(n: nat): nat {
    if n == 0 then 1 else 2 * PowerOfTwo(n - 1)
  }

  /** The size of the n-th chunk: 256 blocks, then twice as many each time, up to 65536. */
  function ChunkSize(n: nat): nat {
    if 256 * PowerOfTwo(n) < 65536 then 256 * PowerOfTwo(n) else 65536
  }

  function ChunkSizes(n: nat): nat {
    if n == 0 then 0 else ChunkSizes(n - 1) + ChunkSize(n - 1)
  }

  /** The steps that grew the pool: a refill by a thread whose cache is empty, with nothing in the central list. */
  ghost function Growths(run: seq<Pool>, acts: seq<Action>, i: nat): nat
    requires i <= |acts| < |run|
  {
    if i == 0 then 0 else Growths(run, acts, i - 1) + if acts[i - 1].Refill? && run[i - 1].central == [] then 1 else 0
  }

  lemma NextChunk(n: nat)
    ensures ChunkSize(n + 1) == if 2 * ChunkSize(n) < 65536 then 2 * ChunkSize(n) else 65536
  {
  }

  lemma SizeStep(p: Pool, a: Action)
    requires Enabled(p, a) && Safe(p, a)
    ensures var q := Next(p, a);
            if a.Refill? && p.central == [] then q.total == p.total + p.chunk && q.chunk == (if 2 * p.chunk < 65536 then 2 * p.chunk else 65536)
            else q.total == p.total && q.chunk == p.chunk
  {
    hide Count;
  }

  /** Over every run the blocks ever made are those of as many chunks as there were such refills. */
  lemma {:induction false} GrowsByDoubling(run: seq<Pool>, acts: seq<Action>, i: nat)
    requires Run(run, acts) && i <= |acts|
    ensures var g := Growths(run, acts, i); run[i].chunk == ChunkSize(g) && run[i].total == ChunkSizes(g)
  {
    hide Inv, Next, Enabled, Safe;
    if i > 0 {
      GrowsByDoubling(run, acts, i - 1);
      RunKeeps(run, acts, i - 1);
      StepKeeps(run[i - 1], acts[i - 1]);
      SizeStep(run[i - 1], acts[i - 1]);
      NextChunk(Growths(run, acts, i - 1));
    }
  }

  // ---- Batches ----

  /** A refill ends with 128 blocks, or with all there were; giving back begins at 257 and ends at 129. */
  lemma BatchesAre(run: seq<Pool>, acts: seq<Action>, i: nat)
    requires Run(run, acts) && i < |acts|
    ensures acts[i].PopFilled? ==>
              var n := |run[i].caches[acts[i].t].list|; 0 < n <= 128 && (n < 128 ==> run[i].central == [])
    ensures acts[i].StartReturn? ==> |run[i].caches[acts[i].t].list| == 257
    ensures acts[i].EndReturn? ==> |run[i].caches[acts[i].t].list| == 129
    ensures acts[i].Push? && |run[i].caches[acts[i].t].list| == 256 ==> run[i + 1].caches[acts[i].t].pc == Full
    ensures acts[i].Push? && |run[i].caches[acts[i].t].list| < 256 ==> run[i + 1].caches[acts[i].t].pc == Idle
  {
    hide Holds, OneHolds, Grow, Put;
    RunKeeps(run, acts, i);
    StepKeeps(run[i], acts[i]);
    if !acts[i].Register? {
      assert CacheOk(run[i], acts[i].t);
    }
  }

  /** Over every run at most one thread is between taking the lock and releasing it. */
  lemma OneInside(run: seq<Pool>, acts: seq<Action>, i: nat, t: nat, u: nat)
    requires Run(run, acts) && i < |run| && t < u < |run[i].caches|
    ensures !(run[i].caches[t].pc.Filling? || run[i].caches[t].pc.Returning?) || !(run[i].caches[u].pc.Filling? || run[i].caches[u].pc.Returning?)
  {
    hide Holds, Run;
    RunKeeps(run, acts, i);
  }

  // ---- Order ----

  predicate Thread(a: Action, t: nat) {
    !a.Register? && a.t == t
  }

  lemma OthersLeave(p: Pool, a: Action, t: nat)
    requires Enabled(p, a) && Safe(p, a) && t < |p.caches| && !Thread(a, t)
    ensures t < |Next(p, a).caches| && Next(p, a).caches[t] == p.caches[t]
  {
    hide Grow, Put;
    if a.Refill? { GrowLeaves(p); }
  }

  lemma GrowLeaves(p: Pool)
    ensures Grow(p).caches == p.caches
  {
  }

  lemma {:induction false} CacheStays(run: seq<Pool>, acts: seq<Action>, i: nat, j: nat, t: nat)
    requires Run(run, acts) && i <= j < |run| && t < |run[i].caches| && forall k :: i <= k < j ==> !Thread(acts[k], t)
    ensures t < |run[j].caches| && run[j].caches[t] == run[i].caches[t]
    decreases j - i
  {
    hide Inv, Next, Enabled, Safe;
    if i < j {
      CacheStays(run, acts, i, j - 1, t);
      RunKeeps(run, acts, j - 1);
      StepKeeps(run[j - 1], acts[j - 1]);
      OthersLeave(run[j - 1], acts[j - 1], t);
    }
  }

  /** What a thread frees last it gets first: if its next step is a pop, that gives the block back, whatever the others do. */
  lemma LastFreedFirst(run: seq<Pool>, acts: seq<Action>, i: nat, j: nat, t: nat, b: Block)
    requires Run(run, acts) && i < j < |acts| && acts[i] == Push(t, b) && acts[j] == PopLocal(t)
    requires forall k :: i < k < j ==> !Thread(acts[k], t)
    ensures t < |run[j].caches| && run[j].caches[t].list != [] && run[j].caches[t].list[0] == b
  {
    hide Inv, Put;
    RunKeeps(run, acts, i);
    StepKeeps(run[i], acts[i]);
    assert run[i + 1] == Next(run[i], acts[i]);
    CacheStays(run, acts, i + 1, j, t);
  }
}
