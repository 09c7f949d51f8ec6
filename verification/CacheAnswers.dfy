/** What the operations of the LRU caches answer and which entries they keep, said by the entries that
    stand in the cache and by the history of operations. */
module CacheAnswers {
  import opened ByteStrings
  import opened RecencyCaches

  /** An entry with the key stands in the cache. */
  ghost predicate Stands<K, V>(c: Cache<K, V>, key: K) {
    exists e :: e in c.entries && e.key == key
  }

  /** It does, and has not expired at a reading of the clock. */
  ghost predicate Fresh<K, V>(c: Cache<K, V>, key: K, now: int) {
    exists e :: e in c.entries && e.key == key && !Expired(c.ttl, now, e.stamp)
  }

  lemma StandsFound<K, V>(c: Cache<K, V>, key: K)
    ensures Stands(c, key) <==> Find(c.entries, key) < |c.entries|
  {
    var k := Find(c.entries, key);
    if k < |c.entries| {
      assert c.entries[k] in c.entries;
    }
  }

  /** The entry of a key is the one found. */
  lemma TheEntry<K, V>(c: Cache<K, V>, e: Entry<K, V>)
    requires Ok(c) && e in c.entries
    ensures var k := Find(c.entries, e.key); k < |c.entries| && c.entries[k] == e
  {
    hide Find;
    var i :| 0 <= i < |c.entries| && c.entries[i] == e;
    FoundKey(c.entries, i);
  }

  lemma FreshFound<K, V>(c: Cache<K, V>, key: K, now: int)
    requires Ok(c)
    ensures var k := Find(c.entries, key);
            Fresh(c, key, now) <==> k < |c.entries| && !Expired(c.ttl, now, c.entries[k].stamp)
  {
    hide Find, Expired, Ok;
    var k := Find(c.entries, key);
    if k < |c.entries| {
      assert c.entries[k] in c.entries;
    }
    if e :| e in c.entries && e.key == key && !Expired(c.ttl, now, e.stamp) {
      TheEntry(c, e);
    }
  }

  // ---- Answers ----

  /** A read hits exactly when the key's entry stands and is fresh, and gives its value. */
  lemma GetAnswers<K, V>(c: Cache<K, V>, key: K, now: int)
    requires Ok(c)
    ensures Get(c, key, now).1.Some? <==> Fresh(c, key, now)
    ensures forall e :: e in c.entries && e.key == key && !Expired(c.ttl, now, e.stamp) ==> Get(c, key, now).1 == Some(e.value)
  {
    hide Find, Expired, Ok;
    FreshFound(c, key, now);
    forall e | e in c.entries && e.key == key && !Expired(c.ttl, now, e.stamp)
      ensures Get(c, key, now).1 == Some(e.value)
    {
      TheEntry(c, e);
    }
  }

  /** A look answers true exactly when a read at the same moment would hit. */
  lemma HasAnswers<K, V>(c: Cache<K, V>, key: K, now: int)
    requires Ok(c)
    ensures Has(c, key, now).1 <==> Fresh(c, key, now)
    ensures Has(c, key, now).1 <==> Get(c, key, now).1.Some?
  {
    hide Find, Expired, Ok;
    FreshFound(c, key, now);
  }

  // ---- Which entries an operation keeps ----

  /** The entry is judged expired by the operation. */
  ghost predicate DropsOld<K, V>(c: Cache<K, V>, op: Op<K, V>, e: Entry<K, V>) {
    match op
    case DoGet(key, now) => e.key == key && Expired(c.ttl, now, e.stamp)
    case DoHas(key, now) => e.key == key && Expired(c.ttl, now, e.stamp)
    case DoSweep(times) => exists j :: 0 <= j < |times| == |c.entries| && c.entries[j] == e && Expired(c.ttl, times[j], e.stamp)
    case _ => false
  }

  /** A write of a new key into a full cache gives up the last entry. */
  ghost predicate GivesUp<K, V>(c: Cache<K, V>, op: Op<K, V>, e: Entry<K, V>) {
    op.DoSet? && !Stands(c, op.key) && |c.entries| == c.max > 0 && e == c.entries[c.max - 1]
  }

  /** The entry is replaced by a write of its key, or taken out by a removal. */
  predicate Replaces<K(==), V>(op: Op<K, V>, e: Entry<K, V>) {
    (op.DoSet? || op.DoRemove?) && op.key == e.key
  }

  ghost predicate Writes<K, V>(c: Cache<K, V>, op: Op<K, V>, e: Entry<K, V>) {
    op.DoSet? && c.max > 0 && e.key == op.key && e.value == op.value && (c.ttl > 0 ==> e.stamp == op.now)
  }

  lemma WithoutMembers<K(!new), V(!new)>(es: seq<Entry<K, V>>, k: nat, e: Entry<K, V>)
    requires Distinct(es) && k < |es|
    ensures e in Without(es, k) <==> e in es && e.key != es[k].key
  {
    hide Distinct;
    WithoutPairwise(es, k, (a, b) => true);
    if e in es && e.key != es[k].key {
      var i :| 0 <= i < |es| && es[i] == e;
      WithoutKeeps(es, k, i);
    }
    if e in Without(es, k) {
      WithoutDistinct(es, k);
    }
  }

  /** What a write leaves behind. */
  lemma SetKeepsExactly<K(!new), V(!new)>(c: Cache<K, V>, op: Op<K, V>, e: Entry<K, V>)
    requires Ok(c) && op.DoSet?
    ensures e.key != op.key ==> (e in Next(c, op).entries <==> e in c.entries && !GivesUp(c, op, e))
    ensures e.key == op.key && e in Next(c, op).entries ==> Writes(c, op, e)
    ensures c.max > 0 ==> Stands(Next(c, op), op.key)
  {
    hide Find, Without, Distinct;
    var es, fs := c.entries, Next(c, op).entries;
    var k := Find(es, op.key);
    StandsFound(c, op.key);
    if k < |es| {
      WithoutMembers(es, k, e);
    } else {
      NewKey(es, Written(c.ttl, op.key, op.value, 0, op.now), c.max, e);
    }
    assert c.max > 0 ==> fs[0] in fs;
  }

  lemma NewKey<K(!new), V(!new)>(es: seq<Entry<K, V>>, x: Entry<K, V>, max: nat, e: Entry<K, V>)
    requires |es| <= max && Distinct(es)
    ensures var fs := if |es| < max then [x] + es else ([x] + es)[..max];
            && (e != x ==> (e in fs <==> e in es && !(|es| == max > 0 && e == es[max - 1])))
            && (max > 0 ==> fs != [] && fs[0] == x)
  {
    if |es| == max > 0 {
      var n := max - 1;
      assert ([x] + es)[..max] == [x] + es[..n];
      assert es == es[..n] + [es[n]];
    }
  }

  /** What stands after an operation is what it wrote, and of what stood before exactly what it neither
      replaced nor removed nor found expired nor had to give up. */
  lemma KeepsExactly<K(!new), V(!new)>(c: Cache<K, V>, op: Op<K, V>, e: Entry<K, V>)
    requires Ok(c) && Enabled(c, op)
    ensures Replaces(op, e) ==> (e in Next(c, op).entries ==> Writes(c, op, e))
    ensures !Replaces(op, e) ==> (e in Next(c, op).entries <==> e in c.entries && !DropsOld(c, op, e) && !GivesUp(c, op, e))
    ensures op.DoSet? && c.max > 0 ==> Stands(Next(c, op), op.key)
  {
    hide Find, Without, Expired, Kept, Distinct;
    match op
    case DoSet(_, _, _) => SetKeepsExactly(c, op, e);
    case DoSweep(times) => SweepKeepsExactly(c, times, e);
    case _ =>
      var k := Find(c.entries, op.key);
      if k < |c.entries| {
        WithoutMembers(c.entries, k, e);
        if e in c.entries { TheEntry(c, e); }
      }
  }

  lemma SweepKeepsExactly<K(!new), V(!new)>(c: Cache<K, V>, times: seq<int>, e: Entry<K, V>)
    requires Ok(c) && |times| == |c.entries|
    ensures e in Kept(c.entries, c.ttl, times) <==> e in c.entries && !DropsOld(c, DoSweep(times), e)
  {
    hide Expired, Kept;
    KeptPairwise(c.entries, c.ttl, times, (a, b) => true);
    if e in c.entries {
      var i :| 0 <= i < |c.entries| && c.entries[i] == e;
      KeptExactly(c.entries, c.ttl, times, i);
    }
  }

  // ---- Counters ----

  function One(b: bool): nat {
    if b then 1 else 0
  }

  /** A write brings in a key that did not stand. */
  ghost predicate Brings<K, V>(c: Cache<K, V>, op: Op<K, V>) {
    op.DoSet? && !Stands(c, op.key)
  }

  /** A removal takes out a key that did. */
  ghost predicate TakesOut<K, V>(c: Cache<K, V>, op: Op<K, V>) {
    op.DoRemove? && Stands(c, op.key)
  }

  ghost predicate Hits<K, V>(c: Cache<K, V>, op: Op<K, V>) {
    op.DoGet? && Fresh(c, op.key, op.now)
  }

  ghost predicate Misses<K, V>(c: Cache<K, V>, op: Op<K, V>) {
    op.DoGet? && !Fresh(c, op.key, op.now)
  }

  lemma StepCounts<K(!new), V(!new)>(c: Cache<K, V>, op: Op<K, V>)
    requires Ok(c) && Enabled(c, op)
    ensures var d := Next(c, op);
            && d.hits == c.hits + One(Hits(c, op)) && d.misses == c.misses + One(Misses(c, op))
            && |d.entries| + (d.evictions - c.evictions) + One(TakesOut(c, op)) == |c.entries| + One(Brings(c, op))
    ensures op.DoSweep? ==> Sweep(c, op.times).1 == |c.entries| - |Next(c, op).entries|
  {
    hide Find, Kept, Distinct, Expired, Stands, Fresh;
    if !op.DoSweep? { StandsFound(c, op.key); }
    if op.DoGet? { FreshFound(c, op.key, op.now); }
  }

  ghost function HitsIn<K(!new), V(!new)>(run: seq<Cache<K, V>>, ops: seq<Op<K, V>>, i: nat): nat
    requires i <= |ops| < |run|
  {
    if i == 0 then 0 else HitsIn(run, ops, i - 1) + One(Hits(run[i - 1], ops[i - 1]))
  }

  ghost function MissesIn<K(!new), V(!new)>(run: seq<Cache<K, V>>, ops: seq<Op<K, V>>, i: nat): nat
    requires i <= |ops| < |run|
  {
    if i == 0 then 0 else MissesIn(run, ops, i - 1) + One(Misses(run[i - 1], ops[i - 1]))
  }

  ghost function BroughtIn<K(!new), V(!new)>(run: seq<Cache<K, V>>, ops: seq<Op<K, V>>, i: nat): nat
    requires i <= |ops| < |run|
  {
    if i == 0 then 0 else BroughtIn(run, ops, i - 1) + One(Brings(run[i - 1], ops[i - 1]))
  }

  ghost function TakenOut<K(!new), V(!new)>(run: seq<Cache<K, V>>, ops: seq<Op<K, V>>, i: nat): nat
    requires i <= |ops| < |run|
  {
    if i == 0 then 0 else TakenOut(run, ops, i - 1) + One(TakesOut(run[i - 1], ops[i - 1]))
  }

  /** Over every run the hits and misses are the reads that found a fresh entry and those that did not,
      and every key brought in stands, was removed or is counted as evicted. */
  lemma {:induction false} CountersTell<K(!new), V(!new)>(run: seq<Cache<K, V>>, ops: seq<Op<K, V>>, i: nat)
    requires Run(run, ops) && i <= |ops|
    ensures run[i].hits - run[0].hits == HitsIn(run, ops, i) && run[i].misses - run[0].misses == MissesIn(run, ops, i)
    ensures |run[i].entries| + TakenOut(run, ops, i) + (run[i].evictions - run[0].evictions) == BroughtIn(run, ops, i)
  {
    hide Next, Ok, Hits, Misses, Brings, TakesOut;
    if i > 0 {
      CountersTell(run, ops, i - 1);
      RunKeeps(run, ops, i - 1);
      assert Enabled(run[i - 1], ops[i - 1]) && run[i] == Next(run[i - 1], ops[i - 1]);
      StepCounts(run[i - 1], ops[i - 1]);
    }
  }

  // ---- What stands, by the history ----

  /** The least recently used key. */
  ghost predicate Oldest<K(!new), V(!new)>(run: seq<Cache<K, V>>, ops: seq<Op<K, V>>, j: nat, key: K)
    requires j <= |ops| < |run|
  {
    forall y :: Stands(run[j], y) ==> LastUse(run, ops, j, key) <= LastUse(run, ops, j, y)
  }

  /** The clock reading by which an operation judges a key, if it judges it. */
  ghost predicate JudgesAt<K(!new), V(!new)>(c: Cache<K, V>, op: Op<K, V>, key: K, now: int) {
    match op
    case DoGet(k, t) => k == key && t == now
    case DoHas(k, t) => k == key && t == now
    case DoSweep(times) => exists j :: 0 <= j < |times| == |c.entries| && c.entries[j].key == key && times[j] == now
    case _ => false
  }

  /** Operation j takes away a key that was last written at operation u: it removes it, finds it expired,
      or needs the place of the least recently used one. */
  ghost predicate Loses<K(!new), V(!new)>(run: seq<Cache<K, V>>, ops: seq<Op<K, V>>, u: nat, j: nat, key: K)
    requires u < j < |ops| < |run| && ops[u].DoSet?
  {
    || ops[j] == DoRemove(key)
    || (exists now :: JudgesAt(run[j], ops[j], key, now) && Expired(run[0].ttl, now, ops[u].now))
    || (ops[j].DoSet? && !Stands(run[j], ops[j].key) && |run[j].entries| == run[0].max && Oldest(run, ops, j, key))
  }

  lemma OldIfJudged<K(!new), V(!new)>(c: Cache<K, V>, op: Op<K, V>, e: Entry<K, V>, written: int)
    requires Ok(c) && Enabled(c, op) && e in c.entries && (c.ttl > 0 ==> e.stamp == written)
    ensures DropsOld(c, op, e) <==> exists now :: JudgesAt(c, op, e.key, now) && Expired(c.ttl, now, written)
  {
    forall now
      ensures Expired(c.ttl, now, written) == Expired(c.ttl, now, e.stamp)
    {
    }
    hide Expired;
    match op
    case DoSweep(times) =>
      if now :| JudgesAt(c, op, e.key, now) && Expired(c.ttl, now, written) {
        var j :| 0 <= j < |times| && c.entries[j].key == e.key && times[j] == now;
        var i :| 0 <= i < |c.entries| && c.entries[i] == e;
        assert i == j;
      }
      if j :| 0 <= j < |times| && c.entries[j] == e && Expired(c.ttl, times[j], e.stamp) {
        assert JudgesAt(c, op, e.key, times[j]);
      }
    case DoGet(key, now) => assert e.key == key ==> JudgesAt(c, op, key, now);
    case DoHas(key, now) => assert e.key == key ==> JudgesAt(c, op, key, now);
    case _ =>
  }

  /** The last entry is the least recently used one. */
  lemma LastIsOldest<K(!new), V(!new)>(run: seq<Cache<K, V>>, ops: seq<Op<K, V>>, i: nat, e: Entry<K, V>)
    requires i <= |ops| < |run| && Told(run, ops, i) && e in run[i].entries
    ensures e == run[i].entries[|run[i].entries| - 1] <==> Oldest(run, ops, i, e.key)
  {
    hide LastUse, Ok, AsWritten;
    var es := run[i].entries;
    var n := |es| - 1;
    var k :| 0 <= k < |es| && es[k] == e;
    if k < n {
      assert Later(run, ops, i, es[k], es[n]);
      assert es[n] in es && Stands(run[i], es[n].key);
    } else {
      forall y | Stands(run[i], y)
        ensures LastUse(run, ops, i, e.key) <= LastUse(run, ops, i, y)
      {
        var f :| f in es && f.key == y;
        var a :| 0 <= a < |es| && es[a] == f;
        if a < n { assert Later(run, ops, i, es[a], es[n]); }
      }
    }
  }

  /** One operation that does not write the key. */
  lemma StandsOn<K(!new), V(!new)>(run: seq<Cache<K, V>>, ops: seq<Op<K, V>>, i: nat, u: nat, key: K)
    requires i < |ops| < |run| && Told(run, ops, i) && Enabled(run[i], ops[i]) && run[i + 1] == Next(run[i], ops[i])
    requires u == LastSet(ops, i, key) && !(ops[i].DoSet? && ops[i].key == key) && run[0].max > 0
    ensures Stands(run[i + 1], key) <==> Stands(run[i], key) && !Loses(run, ops, u, i, key)
  {
    hide Next, LastSet, LastUse, Ok, Enabled, ByUse, Oldest, JudgesAt, Expired, DropsOld;
    var c, op, d := run[i], ops[i], run[i + 1];
    if Stands(c, key) {
      var e :| e in c.entries && e.key == key;
      assert AsWritten(e, c.ttl, ops, i);
      KeepsExactly(c, op, e);
      OldIfJudged(c, op, e, ops[u].now);
      LastIsOldest(run, ops, i, e);
      assert Loses(run, ops, u, i, key) <==> Replaces(op, e) || DropsOld(c, op, e) || GivesUp(c, op, e);
      if f :| f in d.entries && f.key == key {
        KeepsExactly(c, op, f);
        assert !Replaces(op, f) ==> f == e by {
          if !Replaces(op, f) { TheEntry(c, e); TheEntry(c, f); }
        }
      }
    } else {
      NotBrought(c, op, key);
    }
  }

  lemma SetStands<K(!new), V(!new)>(c: Cache<K, V>, op: Op<K, V>)
    requires Ok(c) && op.DoSet? && c.max > 0
    ensures Stands(Next(c, op), op.key)
  {
    hide Next, Ok;
    SetKeepsExactly(c, op, Written(c.ttl, op.key, op.value, 0, op.now));
  }

  lemma NotBrought<K(!new), V(!new)>(c: Cache<K, V>, op: Op<K, V>, key: K)
    requires Ok(c) && Enabled(c, op) && !Stands(c, key) && !(op.DoSet? && op.key == key)
    ensures !Stands(Next(c, op), key)
  {
    hide Next, Ok, DropsOld, GivesUp;
    if e :| e in Next(c, op).entries && e.key == key {
      KeepsExactly(c, op, e);
    }
  }

  /** Over every run a key stands exactly when it was written and no operation since took it away. */
  lemma {:induction false} StandsExactly<K(!new), V(!new)>(run: seq<Cache<K, V>>, ops: seq<Op<K, V>>, i: nat, key: K)
    requires Run(run, ops) && i <= |ops| && run[0].max > 0
    ensures var u := LastSet(ops, i, key);
            Stands(run[i], key) <==> u >= 0 && forall j :: u < j < i ==> !Loses(run, ops, u, j, key)
  {
    hide Next, LastSet, LastUse, Loses, Ok, Stands, Enabled;
    if i == 0 {
      assert !Stands(run[0], key) by { StandsFound(run[0], key); }
    } else {
      var c, op, u := run[i - 1], ops[i - 1], LastSet(ops, i, key);
      StandsExactly(run, ops, i - 1, key);
      RunKeeps(run, ops, i - 1);
      assert Enabled(c, op) && run[i] == Next(c, op);
      UnusedLater(run, ops, i - 1, key);
      if op.DoSet? && op.key == key {
        SetStands(c, op);
      } else if u >= 0 {
        StandsOn(run, ops, i - 1, u, key);
      } else {
        NotBrought(c, op, key);
      }
    }
  }

  /** The answer of a read or a look. */
  predicate Finds<K(==), V>(c: Cache<K, V>, op: Op<K, V>)
    requires op.DoGet? || op.DoHas?
  {
    if op.DoGet? then Get(c, op.key, op.now).1.Some? else Has(c, op.key, op.now).1
  }

  /** Over every run a read hits and a look answers true exactly when the key was written, no operation
      since took it away, and the write is younger than the time to live or of an age that is misjudged. */
  lemma FindsExactly<K(!new), V(!new)>(run: seq<Cache<K, V>>, ops: seq<Op<K, V>>, i: nat)
    requires Run(run, ops) && i < |ops| && (ops[i].DoGet? || ops[i].DoHas?) && run[0].max > 0 && run[0].ttl < 0x8000_0000
    requires var u := LastSet(ops, i, ops[i].key); u >= 0 ==> ops[u].now <= ops[i].now
    ensures var u := LastSet(ops, i, ops[i].key);
            Finds(run[i], ops[i]) <==>
              && u >= 0 && (forall j :: u < j < i ==> !Loses(run, ops, u, j, ops[i].key))
              && var age := ops[i].now - ops[u].now;
                 run[0].ttl <= 0 || age < run[0].ttl || exists turn :: Misjudged(run[0].ttl, age, turn)
  {
    hide LastSet, Loses, Ok, ByUse, Misjudged, Get, Has;
    var c, op, u := run[i], ops[i], LastSet(ops, i, ops[i].key);
    RunKeeps(run, ops, i);
    GetAnswers(c, op.key, op.now);
    HasAnswers(c, op.key, op.now);
    StandsExactly(run, ops, i, op.key);
    if Stands(c, op.key) {
      var e :| e in c.entries && e.key == op.key;
      TheEntry(c, e);
      assert AsWritten(e, c.ttl, ops, i);
      FreshFound(c, op.key, op.now);
      if c.ttl > 0 { ExpiryIsExact(c.ttl, op.now, e.stamp); }
    }
  }

  /** With room for nothing, nothing is ever found. */
  lemma {:induction false} NoRoom<K(!new), V(!new)>(run: seq<Cache<K, V>>, ops: seq<Op<K, V>>, i: nat, key: K)
    requires Run(run, ops) && i <= |ops| && run[0].max == 0
    ensures !Stands(run[i], key)
  {
    RunKeeps(run, ops, i);
  }
}
