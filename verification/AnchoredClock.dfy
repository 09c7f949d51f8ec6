/** The clock of src/natives_utils.cpp: monotonic time plus an offset that is checked against wall
    time every ten seconds. */
module AnchoredClock {
  const SYNC_INTERVAL := 10000
  const SNAP_THRESHOLD := 500

  datatype Clock = Clock(offset: int, last: int, lastSync: int)

  /** What the two system clocks show at a call. */
  datatype Reading = Reading(mono: int, wall: int)

  function Anchor(r: Reading): Clock {
    Clock(r.wall - r.mono, r.wall, r.mono)
  }

  predicate Syncs(c: Clock, r: Reading) {
    r.mono - c.lastSync >= SYNC_INTERVAL
  }

  function Drift(c: Clock, r: Reading): int {
    r.wall - (r.mono + c.offset)
  }

  predicate Snaps(drift: int) {
    drift > SNAP_THRESHOLD || drift < -SNAP_THRESHOLD
  }

  function Max(a: int, b: int): int {
    if a > b then a else b
  }

  /** One call: keep the offset, move it forward, or snap to wall time even backwards. */
  function Tick(c: Clock, r: Reading): Clock {
    if !Syncs(c, r) then c.(last := Max(c.last, r.mono + c.offset))
    else if Snaps(Drift(c, r)) then Anchor(r)
    else if Drift(c, r) > 0 then Clock(r.wall - r.mono, Max(c.last, r.wall), r.mono)
    else Clock(c.offset, Max(c.last, r.mono + c.offset), r.mono)
  }

  class AnchoredTime {
    var offset: int
    var lastReturned: int
    var lastSync: int

    function View(): Clock
      reads this
    {
      Clock(offset, lastReturned, lastSync)
    }

    constructor (r: Reading)
      ensures View() == Anchor(r)
    {
      offset := r.wall - r.mono;
      lastReturned := r.wall;
      lastSync := r.mono;
    }

    method GetAnchoredTimeMs(r: Reading) returns (ms: int)
      modifies this
      ensures View() == Tick(old(View()), r) && ms == lastReturned
    {
      var candidate := r.mono + offset;
      if r.mono - lastSync >= SYNC_INTERVAL {
        lastSync := r.mono;
        var drift := r.wall - candidate;
        if drift > SNAP_THRESHOLD || drift < -SNAP_THRESHOLD {
          offset := r.wall - r.mono;
          candidate := r.wall;
          lastReturned := candidate;
        } else if drift > 0 {
          offset := r.wall - r.mono;
          candidate := r.wall;
        }
      }
      if candidate > lastReturned { lastReturned := candidate; }
      ms := lastReturned;
    }
  }

  // ---- Whole runs ----

  /** The clock is anchored at the first reading and called at each of the others; monotonic time does
      not go back. */
  ghost predicate Run(run: seq<Clock>, rs: seq<Reading>) {
    && |run| == |rs| > 0 && run[0] == Anchor(rs[0])
    && (forall i :: 0 < i < |rs| ==> run[i] == Tick(run[i - 1], rs[i]))
    && (forall i :: 0 < i < |rs| ==> rs[i - 1].mono <= rs[i].mono)
  }

  /** The value returned is always monotonic time plus the offset: the guard against going back is
      never what decides. */
  lemma {:induction false} LastIsAnchored(run: seq<Clock>, rs: seq<Reading>, i: nat)
    requires Run(run, rs) && i < |rs|
    ensures run[i].last == rs[i].mono + run[i].offset
  {
    if i > 0 {
      LastIsAnchored(run, rs, i - 1);
      assert run[i] == Tick(run[i - 1], rs[i]);
    }
  }

  /** At any later moment up to the next call, too, the last value is not ahead of the clock. */
  lemma NeverAhead(run: seq<Clock>, rs: seq<Reading>, i: nat, mono: int)
    requires Run(run, rs) && i < |rs| && rs[i].mono <= mono
    ensures run[i].last <= mono + run[i].offset
  {
    LastIsAnchored(run, rs, i);
  }

  /** Time goes back exactly at a sync that finds wall time more than 500 ms behind the clock and
      behind the value last returned. */
  lemma BackOnlyAtSnap(run: seq<Clock>, rs: seq<Reading>, i: nat)
    requires Run(run, rs) && i + 1 < |rs|
    ensures run[i + 1].last < run[i].last <==>
              Syncs(run[i], rs[i + 1]) && Drift(run[i], rs[i + 1]) < -SNAP_THRESHOLD && rs[i + 1].wall < run[i].last
  {
    LastIsAnchored(run, rs, i);
    assert run[i + 1] == Tick(run[i], rs[i + 1]);
  }

  /** Over a stretch of calls without such a sync the values do not decrease. */
  lemma {:induction false} NonDecreasing(run: seq<Clock>, rs: seq<Reading>, i: nat, j: nat)
    requires Run(run, rs) && i <= j < |rs|
    requires forall k :: i <= k < j ==> !(Syncs(run[k], rs[k + 1]) && Drift(run[k], rs[k + 1]) < -SNAP_THRESHOLD)
    ensures run[i].last <= run[j].last
  {
    if i < j {
      NonDecreasing(run, rs, i, j - 1);
      BackOnlyAtSnap(run, rs, j - 1);
    }
  }

  /** Every sync returns a value within 500 ms of wall time, and wall time itself unless the clock was
      up to 500 ms ahead. */
  lemma SyncIsNearWallTime(run: seq<Clock>, rs: seq<Reading>, i: nat)
    requires Run(run, rs) && i + 1 < |rs| && Syncs(run[i], rs[i + 1])
    ensures rs[i + 1].wall <= run[i + 1].last <= rs[i + 1].wall + SNAP_THRESHOLD
    ensures !(-SNAP_THRESHOLD <= Drift(run[i], rs[i + 1]) < 0) ==> run[i + 1].last == rs[i + 1].wall
  {
    LastIsAnchored(run, rs, i);
    assert run[i + 1] == Tick(run[i], rs[i + 1]);
  }

  /** Between syncs the values advance exactly as monotonic time does. */
  lemma {:induction false} SteadyBetweenSyncs(run: seq<Clock>, rs: seq<Reading>, i: nat, j: nat)
    requires Run(run, rs) && i <= j < |rs| && forall k :: i <= k < j ==> !Syncs(run[k], rs[k + 1])
    ensures run[j].last - run[i].last == rs[j].mono - rs[i].mono && run[j].lastSync == run[i].lastSync
  {
    LastIsAnchored(run, rs, i);
    LastIsAnchored(run, rs, j);
    if i < j {
      SteadyBetweenSyncs(run, rs, i, j - 1);
      assert run[j] == Tick(run[j - 1], rs[j]);
      assert !Syncs(run[j - 1], rs[j - 1 + 1]);
      LastIsAnchored(run, rs, j - 1);
    }
  }

  /** The call at which the clock last compared itself with wall time: by monotonic time alone, the first
      ten seconds or more after the one before. */
  ghost function LastSync(rs: seq<Reading>, i: nat): (s: nat)
    requires i < |rs|
    ensures s <= i
  {
    if i == 0 then 0
    else
      var s := LastSync(rs, i - 1);
      if rs[i].mono - rs[s].mono >= 10000 then i else s
  }

  lemma {:induction false} SyncsOnTime(run: seq<Clock>, rs: seq<Reading>, i: nat)
    requires Run(run, rs) && i < |rs|
    ensures run[i].lastSync == rs[LastSync(rs, i)].mono
  {
    if i > 0 {
      SyncsOnTime(run, rs, i - 1);
      assert run[i] == Tick(run[i - 1], rs[i]);
    }
  }

  /** The whole clock by its readings: it starts at wall time and advances as monotonic time does; at a
      sync it stays up to 500 ms ahead of wall time, and is set to wall time otherwise. */
  lemma TimeExactly(run: seq<Clock>, rs: seq<Reading>, i: nat)
    requires Run(run, rs) && i < |rs|
    ensures i == 0 ==> run[i].last == rs[i].wall
    ensures i > 0 ==>
              var advanced := run[i - 1].last + (rs[i].mono - rs[i - 1].mono);
              run[i].last == if LastSync(rs, i) == i && !(0 <= advanced - rs[i].wall <= 500) then rs[i].wall else advanced
  {
    if i > 0 {
      SyncsOnTime(run, rs, i - 1);
      LastIsAnchored(run, rs, i - 1);
      LastIsAnchored(run, rs, i);
      assert run[i] == Tick(run[i - 1], rs[i]);
    }
  }
}
