/** What the two LRU caches of sourcepawn/async2_lru.inc mean: a list of entries, most recently used
    first, with a size limit and a time to live. */
module RecencyCaches {
  import opened ByteStrings
  import opened Cells

  datatype Entry<K, V> = Entry(key: K, value: V, stamp: int)

  datatype Cache<K, V> = Cache(entries: seq<Entry<K, V>>, max: nat, ttl: int, evictions: int, hits: int, misses: int)

  // ---- Time to live ----

  /** Elapsed time is kept in one cell only. */
  predicate Expired(ttl: int, now: int, stamp: int) {
    ttl > 0 && Low32(now - stamp) >= ttl
  }

  /** The ages that are judged wrongly: from half of each turn of the cell until the time to live has
      passed in the next. */
  predicate Misjudged(ttl: int, age: int, turn: nat) {
    turn * 0x1_0000_0000 + 0x8000_0000 <= age < (turn + 1) * 0x1_0000_0000 + ttl
  }

  /** An entry is found expired exactly when it is as old as the time to live, except at those ages,
      where it is an expired entry that is taken for a fresh one. */
  lemma ExpiryIsExact(ttl: int, now: int, stamp: int)
    requires 0 < ttl < 0x8000_0000 && stamp <= now
    ensures Expired(ttl, now, stamp) ==> now - stamp >= ttl
    ensures var age := now - stamp; Expired(ttl, now, stamp) != (age >= ttl) <==> exists turn :: Misjudged(ttl, age, turn)
  {
    var age := now - stamp;
    var turn, low := age / 0x1_0000_0000, age % 0x1_0000_0000;
    assert age == turn * 0x1_0000_0000 + low;
    if age >= ttl && low >= 0x8000_0000 {
      assert Misjudged(ttl, age, turn);
    }
    if age >= ttl && low < ttl {
      assert Misjudged(ttl, age, turn - 1);
    }
    if t: nat :| Misjudged(ttl, age, t) {
      MisjudgedLow(ttl, age, t);
    }
  }

  lemma MisjudgedLow(ttl: int, age: int, turn: nat)
    requires 0 < ttl < 0x8000_0000 && Misjudged(ttl, age, turn)
    ensures age >= ttl && !(ttl <= age % 0x1_0000_0000 < 0x8000_0000)
  {
    if age < (turn + 1) * 0x1_0000_0000 {
      assert age % 0x1_0000_0000 == age - turn * 0x1_0000_0000;
    } else {
      assert age % 0x1_0000_0000 == age - (turn + 1) * 0x1_0000_0000;
    }
  }

  // ---- Operations ----

  function Find<K(==), V>(es: seq<Entry<K, V>>, key: K): (k: nat)
    ensures k <= |es| && (k < |es| ==> es[k].key == key)
    ensures forall j :: 0 <= j < k ==> es[j].key != key
  {
    if es == [] || es[0].key == key then 0 else 1 + Find(es[1..], key)
  }

  lemma FoundKey<K, V>(es: seq<Entry<K, V>>, i: nat)
    requires i < |es|
    ensures Find(es, es[i].key) < |es|
  {
  }

  function Without<K, V>(es: seq<Entry<K, V>>, k: nat): (r: seq<Entry<K, V>>)
    requires k < |es|
    ensures |r| == |es| - 1
  {
    es[..k] + es[k + 1..]
  }

  /** The entry a write leaves: stamped only when entries can expire. */
  function Written<K, V>(ttl: int, key: K, value: V, before: int, now: int): Entry<K, V> {
    Entry(key, value, if ttl > 0 then now else before)
  }

  /** Over the limit the entries at the end go. */
  function Trim<K, V>(c: Cache<K, V>): Cache<K, V> {
    if |c.entries| <= c.max then c else c.(entries := c.entries[..c.max], evictions := c.evictions + (|c.entries| - c.max))
  }

  function Set<K(==), V>(c: Cache<K, V>, key: K, value: V, now: int): Cache<K, V> {
    var k := Find(c.entries, key);
    if k < |c.entries| then
      c.(entries := [Written(c.ttl, key, value, c.entries[k].stamp, now)] + Without(c.entries, k))
    else Trim(c.(entries := [Written(c.ttl, key, value, 0, now)] + c.entries))
  }

  function Get<K(==), V>(c: Cache<K, V>, key: K, now: int): (Cache<K, V>, Option<V>) {
    var k := Find(c.entries, key);
    if k == |c.entries| then (c.(misses := c.misses + 1), None)
    else if Expired(c.ttl, now, c.entries[k].stamp) then
      (c.(entries := Without(c.entries, k), evictions := c.evictions + 1, misses := c.misses + 1), None)
    else (c.(entries := [c.entries[k]] + Without(c.entries, k), hits := c.hits + 1), Some(c.entries[k].value))
  }

  function Has<K(==), V>(c: Cache<K, V>, key: K, now: int): (Cache<K, V>, bool) {
    var k := Find(c.entries, key);
    if k == |c.entries| then (c, false)
    else if Expired(c.ttl, now, c.entries[k].stamp) then
      (c.(entries := Without(c.entries, k), evictions := c.evictions + 1), false)
    else (c, true)
  }

  function Remove<K(==), V>(c: Cache<K, V>, key: K): Cache<K, V> {
    var k := Find(c.entries, key);
    if k == |c.entries| then c else c.(entries := Without(c.entries, k))
  }

  /** The entries that have not expired, each judged by the clock reading made for it. */
  function Kept<K, V>(es: seq<Entry<K, V>>, ttl: int, times: seq<int>): (r: seq<Entry<K, V>>)
    requires |times| == |es|
    ensures |r| <= |es|
  {
    if es == [] then [] else (if Expired(ttl, times[0], es[0].stamp) then [] else [es[0]]) + Kept(es[1..], ttl, times[1..])
  }

  function Sweep<K, V>(c: Cache<K, V>, times: seq<int>): (Cache<K, V>, nat)
    requires |times| == |c.entries|
  {
    var kept := Kept(c.entries, c.ttl, times);
    var gone := |c.entries| - |kept|;
    (c.(entries := kept, evictions := c.evictions + gone), gone)
  }

  datatype Op<K, V> =
    | DoSet(key: K, value: V, now: int) | DoGet(key: K, now: int) | DoHas(key: K, now: int)
    | DoRemove(key: K) | DoSweep(times: seq<int>)

  predicate Enabled<K, V>(c: Cache<K, V>, op: Op<K, V>) {
    op.DoSweep? ==> |op.times| == |c.entries|
  }

  function Next<K(==), V>(c: Cache<K, V>, op: Op<K, V>): Cache<K, V>
    requires Enabled(c, op)
  {
    match op
    case DoSet(key, value, now) => Set(c, key, value, now)
    case DoGet(key, now) => Get(c, key, now).0
    case DoHas(key, now) => Has(c, key, now).0
    case DoRemove(key) => Remove(c, key)
    case DoSweep(times) => Sweep(c, times).0
  }

  // ---- What every operation keeps ----

  ghost predicate Pairwise<T(!new)>(s: seq<T>, r: (T, T) -> bool) {
    forall i, j :: 0 <= i < j < |s| ==> r(s[i], s[j])
  }

  ghost predicate Distinct<K, V>(es: seq<Entry<K, V>>) {
    forall i, j :: 0 <= i < j < |es| ==> es[i].key != es[j].key
  }

  ghost predicate Ok<K, V>(c: Cache<K, V>) {
    Distinct(c.entries) && |c.entries| <= c.max
  }

  lemma WithoutPairwise<K(!new), V(!new)>(es: seq<Entry<K, V>>, k: nat, r: (Entry<K, V>, Entry<K, V>) -> bool)
    requires k < |es| && Pairwise(es, r)
    ensures Pairwise(Without(es, k), r)
    ensures forall e :: e in Without(es, k) ==> e in es
  {
  }

  lemma FrontPairwise<T(!new)>(x: T, big: seq<T>, small: seq<T>, r: (T, T) -> bool)
    requires Pairwise([x] + big, r) && Pairwise(small, r) && forall e :: e in small ==> e in big
    ensures Pairwise([x] + small, r)
  {
    forall j | 0 < j < |[x] + small|
      ensures r(x, ([x] + small)[j])
    {
      assert small[j - 1] in big;
      var i :| 0 <= i < |big| && big[i] == small[j - 1];
      assert r(([x] + big)[0], ([x] + big)[i + 1]);
    }
  }

  lemma {:induction false} KeptPairwise<K(!new), V(!new)>(es: seq<Entry<K, V>>, ttl: int, times: seq<int>, r: (Entry<K, V>, Entry<K, V>) -> bool)
    requires |times| == |es| && Pairwise(es, r)
    ensures Pairwise(Kept(es, ttl, times), r)
    ensures forall e :: e in Kept(es, ttl, times) ==> e in es
  {
    if es != [] {
      hide Expired;
      KeptPairwise(es[1..], ttl, times[1..], r);
      FrontPairwise(es[0], es[1..], Kept(es[1..], ttl, times[1..]), r);
      assert [es[0]] + es[1..] == es;
    }
  }

  /** A sweep keeps exactly the entries that have not expired. */
  lemma {:induction false} KeptExactly<K(!new), V(!new)>(es: seq<Entry<K, V>>, ttl: int, times: seq<int>, j: nat)
    requires |times| == |es| && j < |es| && Distinct(es)
    ensures es[j] in Kept(es, ttl, times) <==> !Expired(ttl, times[j], es[j].stamp)
  {
    hide Expired;
    KeptPairwise(es[1..], ttl, times[1..], (a, b) => true);
    if j == 0 {
      assert es[0] !in es[1..];
    } else {
      KeptExactly(es[1..], ttl, times[1..], j - 1);
      assert es[1..][j - 1] == es[j] != es[0];
    }
  }

  lemma DistinctIsPairwise<K(!new), V(!new)>(es: seq<Entry<K, V>>)
    ensures Distinct(es) <==> Pairwise(es, (a: Entry<K, V>, b: Entry<K, V>) => a.key != b.key)
  {
  }

  lemma FrontDistinct<K(!new), V(!new)>(e: Entry<K, V>, es: seq<Entry<K, V>>)
    requires Distinct(es) && Find(es, e.key) == |es|
    ensures Distinct([e] + es)
  {
    hide Find;
  }

  lemma WithoutDistinct<K(!new), V(!new)>(es: seq<Entry<K, V>>, k: nat)
    requires Distinct(es) && k < |es|
    ensures Distinct(Without(es, k)) && Find(Without(es, k), es[k].key) == |es| - 1
  {
    hide Find;
    var r := Without(es, k);
    assert forall i :: 0 <= i < |r| ==> r[i] == es[if i < k then i else i + 1];
  }

  lemma StepKeeps<K(!new), V(!new)>(c: Cache<K, V>, op: Op<K, V>)
    requires Ok(c) && Enabled(c, op)
    ensures Ok(Next(c, op))
  {
    hide Find, Without, Distinct, Kept, Expired;
    match op
    case DoSet(key, value, now) => SetKeeps(c, key, value, now);
    case DoSweep(times) =>
      DistinctIsPairwise(c.entries);
      KeptPairwise(c.entries, c.ttl, times, (a: Entry<K, V>, b: Entry<K, V>) => a.key != b.key);
      DistinctIsPairwise(Kept(c.entries, c.ttl, times));
    case _ =>
      var k := Find(c.entries, op.key);
      if k < |c.entries| {
        WithoutDistinct(c.entries, k);
        FrontDistinct(c.entries[k], Without(c.entries, k));
      }
  }

  lemma SetKeeps<K(!new), V(!new)>(c: Cache<K, V>, key: K, value: V, now: int)
    requires Ok(c)
    ensures Ok(Set(c, key, value, now))
  {
    hide Find, Without, Distinct;
    var k := Find(c.entries, key);
    if k < |c.entries| {
      WithoutDistinct(c.entries, k);
      FrontDistinct(Written(c.ttl, key, value, c.entries[k].stamp, now), Without(c.entries, k));
    } else {
      FrontDistinct(Written(c.ttl, key, value, 0, now), c.entries);
      PrefixDistinct([Written(c.ttl, key, value, 0, now)] + c.entries, c.max);
    }
  }

  lemma PrefixDistinct<K, V>(es: seq<Entry<K, V>>, n: nat)
    requires Distinct(es)
    ensures n <= |es| ==> Distinct(es[..n])
  {
  }

  lemma KeptNone<K(!new), V(!new)>(es: seq<Entry<K, V>>, ttl: int, times: seq<int>)
    requires |times| == |es|
    ensures es[..|es|] + Kept(es[|es|..], ttl, times[|es|..]) == es
  {
  }

  /** A sweep from the end: one more entry judged. */
  lemma KeptMore<K(!new), V(!new)>(es: seq<Entry<K, V>>, ttl: int, times: seq<int>, i: nat)
    requires |times| == |es| && i < |es|
    ensures var s := es[..i + 1] + Kept(es[i + 1..], ttl, times[i + 1..]);
            && i < |s| && s[i] == es[i]
            && es[..i] + Kept(es[i..], ttl, times[i..]) == if Expired(ttl, times[i], es[i].stamp) then Without(s, i) else s
  {
    hide Expired;
    assert es[i..][1..] == es[i + 1..] && times[i..][1..] == times[i + 1..];
  }

  // ---- Whole runs ----

  ghost predicate Run<K(!new), V(!new)>(run: seq<Cache<K, V>>, ops: seq<Op<K, V>>) {
    && |run| == |ops| + 1 && run[0].entries == []
    && forall i :: 0 <= i < |ops| ==> Enabled(run[i], ops[i]) && run[i + 1] == Next(run[i], ops[i])
  }

  /** The key an operation uses: one it writes, or one it reads and finds. */
  ghost predicate Touches<K, V>(c: Cache<K, V>, op: Op<K, V>, key: K) {
    match op
    case DoSet(k, _, _) => k == key
    case DoGet(k, now) => k == key && Get(c, k, now).1.Some?
    case _ => false
  }

  /** The last operation before the i-th that used a key, or -1. */
  ghost function LastUse<K(!new), V(!new)>(run: seq<Cache<K, V>>, ops: seq<Op<K, V>>, i: nat, key: K): (u: int)
    requires i <= |ops| < |run|
    ensures -1 <= u < i && (u >= 0 ==> Touches(run[u], ops[u], key))
    ensures forall j :: u < j < i ==> !Touches(run[j], ops[j], key)
  {
    if i == 0 then -1 else if Touches(run[i - 1], ops[i - 1], key) then i - 1 else LastUse(run, ops, i - 1, key)
  }

  /** The last operation before the i-th that wrote a key, or -1. */
  ghost function LastSet<K(!new), V(!new)>(ops: seq<Op<K, V>>, i: nat, key: K): (u: int)
    requires i <= |ops|
    ensures -1 <= u < i && (u >= 0 ==> ops[u].DoSet? && ops[u].key == key)
    ensures forall j :: u < j < i ==> !(ops[j].DoSet? && ops[j].key == key)
  {
    if i == 0 then -1 else if ops[i - 1].DoSet? && ops[i - 1].key == key then i - 1 else LastSet(ops, i - 1, key)
  }

  ghost predicate Later<K(!new), V(!new)>(run: seq<Cache<K, V>>, ops: seq<Op<K, V>>, i: nat, a: Entry<K, V>, b: Entry<K, V>) {
    i <= |ops| < |run| && LastUse(run, ops, i, a.key) > LastUse(run, ops, i, b.key)
  }

  /** Entries stand in the order of their last use, the latest first. */
  ghost predicate ByUse<K(!new), V(!new)>(es: seq<Entry<K, V>>, run: seq<Cache<K, V>>, ops: seq<Op<K, V>>, i: nat)
    requires i <= |ops| < |run|
  {
    && (forall e :: e in es ==> LastUse(run, ops, i, e.key) >= 0)
    && Pairwise(es, (a, b) => Later(run, ops, i, a, b))
  }

  /** An entry holds what was last written under its key, and nothing removed the key since. */
  ghost predicate AsWritten<K(!new), V(!new)>(e: Entry<K, V>, ttl: int, ops: seq<Op<K, V>>, i: nat)
    requires i <= |ops|
  {
    var u := LastSet(ops, i, e.key);
    && u >= 0 && e.value == ops[u].value && (ttl > 0 ==> e.stamp == ops[u].now)
    && forall j :: u < j < i ==> !(ops[j].DoRemove? && ops[j].key == e.key)
  }

  lemma UnusedLater<K(!new), V(!new)>(run: seq<Cache<K, V>>, ops: seq<Op<K, V>>, i: nat, key: K)
    requires i < |ops| < |run|
    ensures LastUse(run, ops, i + 1, key) == if Touches(run[i], ops[i], key) then i else LastUse(run, ops, i, key)
    ensures LastSet(ops, i + 1, key) == if ops[i].DoSet? && ops[i].key == key then i else LastSet(ops, i, key)
  {
  }

  /** A list made of entries of an earlier one, in the same order, keeps the order by use as long as
      none of its keys is used in between. */
  lemma ByUseLater<K(!new), V(!new)>(small: seq<Entry<K, V>>, big: seq<Entry<K, V>>, run: seq<Cache<K, V>>, ops: seq<Op<K, V>>, i: nat)
    requires i < |ops| < |run| && ByUse(big, run, ops, i)
    requires Pairwise(small, (a, b) => Later(run, ops, i, a, b))
    requires forall e :: e in small ==> e in big && !Touches(run[i], ops[i], e.key)
    ensures ByUse(small, run, ops, i + 1)
  {
    hide Touches, LastUse;
    forall e | e in small
      ensures LastUse(run, ops, i + 1, e.key) == LastUse(run, ops, i, e.key)
    {
      UnusedLater(run, ops, i, e.key);
    }
  }

  lemma ByUseFront<K(!new), V(!new)>(x: Entry<K, V>, es: seq<Entry<K, V>>, run: seq<Cache<K, V>>, ops: seq<Op<K, V>>, i: nat)
    requires i < |ops| < |run| && ByUse(es, run, ops, i + 1) && Touches(run[i], ops[i], x.key)
    requires forall e :: e in es ==> e.key != x.key
    ensures ByUse([x] + es, run, ops, i + 1)
  {
    hide LastUse;
    var s := [x] + es;
    UnusedLater(run, ops, i, x.key);
    forall b | 0 < b < |s|
      ensures LastUse(run, ops, i + 1, s[b].key) < i
    {
      assert s[b] == es[b - 1] && es[b - 1] in es;
      UnusedLater(run, ops, i, s[b].key);
    }
  }

  /** The entries other than one key's, after an operation that used none of them. */
  lemma ByUseWithout<K(!new), V(!new)>(run: seq<Cache<K, V>>, ops: seq<Op<K, V>>, i: nat, k: nat)
    requires i < |ops| < |run| && ByUse(run[i].entries, run, ops, i) && Distinct(run[i].entries)
    requires k < |run[i].entries| && forall key :: Touches(run[i], ops[i], key) ==> key == run[i].entries[k].key
    ensures ByUse(Without(run[i].entries, k), run, ops, i + 1)
    ensures forall e :: e in Without(run[i].entries, k) ==> e.key != run[i].entries[k].key
  {
    hide LastUse, Touches, Find;
    var es := run[i].entries;
    WithoutPairwise(es, k, (a: Entry<K, V>, b: Entry<K, V>) => Later(run, ops, i, a, b));
    WithoutDistinct(es, k);
    ByUseLater(Without(es, k), es, run, ops, i);
  }

  lemma ByUseSame<K(!new), V(!new)>(run: seq<Cache<K, V>>, ops: seq<Op<K, V>>, i: nat)
    requires i < |ops| < |run| && ByUse(run[i].entries, run, ops, i)
    requires forall e :: e in run[i].entries ==> !Touches(run[i], ops[i], e.key)
    ensures ByUse(run[i].entries, run, ops, i + 1)
  {
    hide LastUse, Touches;
    ByUseLater(run[i].entries, run[i].entries, run, ops, i);
  }

  lemma ByUseSet<K(!new), V(!new)>(run: seq<Cache<K, V>>, ops: seq<Op<K, V>>, i: nat)
    requires i < |ops| < |run| && ByUse(run[i].entries, run, ops, i) && Distinct(run[i].entries) && ops[i].DoSet?
    ensures ByUse(Next(run[i], ops[i]).entries, run, ops, i + 1)
  {
    hide LastUse, Find, Distinct, ByUse, Without;
    var c, key := run[i], ops[i].key;
    var k := Find(c.entries, key);
    if k < |c.entries| {
      ByUseWithout(run, ops, i, k);
      ByUseFront(Written(c.ttl, key, ops[i].value, c.entries[k].stamp, ops[i].now), Without(c.entries, k), run, ops, i);
    } else {
      ByUseSame(run, ops, i);
      var x := Written(c.ttl, key, ops[i].value, 0, ops[i].now);
      ByUseFront(x, c.entries, run, ops, i);
      ByUsePrefix([x] + c.entries, run, ops, i + 1, c.max);
    }
  }

  lemma ByUsePrefix<K(!new), V(!new)>(es: seq<Entry<K, V>>, run: seq<Cache<K, V>>, ops: seq<Op<K, V>>, i: nat, n: nat)
    requires i <= |ops| < |run| && ByUse(es, run, ops, i)
    ensures n <= |es| ==> ByUse(es[..n], run, ops, i)
  {
    hide LastUse;
  }

  lemma ByUseGet<K(!new), V(!new)>(run: seq<Cache<K, V>>, ops: seq<Op<K, V>>, i: nat)
    requires i < |ops| < |run| && ByUse(run[i].entries, run, ops, i) && Distinct(run[i].entries) && ops[i].DoGet?
    ensures ByUse(Next(run[i], ops[i]).entries, run, ops, i + 1)
  {
    hide LastUse, Find, Distinct, ByUse, Without, Expired;
    var c, key := run[i], ops[i].key;
    var k := Find(c.entries, key);
    if k == |c.entries| {
      ByUseSame(run, ops, i);
    } else {
      ByUseWithout(run, ops, i, k);
      if !Expired(c.ttl, ops[i].now, c.entries[k].stamp) {
        ByUseFront(c.entries[k], Without(c.entries, k), run, ops, i);
      }
    }
  }

  lemma ByUseStep<K(!new), V(!new)>(run: seq<Cache<K, V>>, ops: seq<Op<K, V>>, i: nat)
    requires i < |ops| < |run| && ByUse(run[i].entries, run, ops, i) && Distinct(run[i].entries) && Enabled(run[i], ops[i])
    ensures ByUse(Next(run[i], ops[i]).entries, run, ops, i + 1)
  {
    hide LastUse, Find, Distinct, ByUse, Without, Expired, Kept, Set, Get;
    var es := run[i].entries;
    match ops[i]
    case DoSet(_, _, _) => ByUseSet(run, ops, i);
    case DoGet(_, _) => ByUseGet(run, ops, i);
    case DoSweep(times) => ByUseKept(run, ops, i);
    case _ =>
      ByUseSame(run, ops, i);
      var k := Find(es, ops[i].key);
      if k < |es| { ByUseWithout(run, ops, i, k); }
  }

  lemma ByUseKept<K(!new), V(!new)>(run: seq<Cache<K, V>>, ops: seq<Op<K, V>>, i: nat)
    requires i < |ops| < |run| && ByUse(run[i].entries, run, ops, i) && ops[i].DoSweep? && |ops[i].times| == |run[i].entries|
    ensures ByUse(Kept(run[i].entries, run[i].ttl, ops[i].times), run, ops, i + 1)
  {
    hide LastUse, Kept, Expired;
    var es := run[i].entries;
    KeptPairwise(es, run[i].ttl, ops[i].times, (a: Entry<K, V>, b: Entry<K, V>) => Later(run, ops, i, a, b));
    ByUseLater(Kept(es, run[i].ttl, ops[i].times), es, run, ops, i);
  }

  /** Where the entries after an operation come from. */
  lemma Origin<K(!new), V(!new)>(c: Cache<K, V>, op: Op<K, V>, e: Entry<K, V>)
    requires Enabled(c, op) && Distinct(c.entries) && e in Next(c, op).entries
    ensures (op.DoSet? && e.key == op.key && e.value == op.value && (c.ttl > 0 ==> e.stamp == op.now))
         || (e in c.entries && !((op.DoSet? || op.DoRemove?) && op.key == e.key))
  {
    hide Find, Expired, Kept, Without;
    var es := c.entries;
    match op
    case DoSweep(times) => KeptPairwise(es, c.ttl, times, (a, b) => true);
    case _ =>
      var k := Find(es, op.key);
      if k < |es| {
        WithoutPairwise(es, k, (a, b) => true);
        WithoutDistinct(es, k);
      }
  }

  lemma SameLimits<K(!new), V(!new)>(c: Cache<K, V>, op: Op<K, V>)
    requires Enabled(c, op)
    ensures Next(c, op).ttl == c.ttl && Next(c, op).max == c.max
  {
    hide Find, Expired, Kept, Without;
  }

  lemma AsWrittenStep<K(!new), V(!new)>(c: Cache<K, V>, ops: seq<Op<K, V>>, i: nat, e: Entry<K, V>)
    requires i < |ops| && Enabled(c, ops[i]) && Distinct(c.entries) && e in Next(c, ops[i]).entries
    requires forall e :: e in c.entries ==> AsWritten(e, c.ttl, ops, i)
    ensures AsWritten(e, c.ttl, ops, i + 1)
  {
    hide Next, Distinct;
    Origin(c, ops[i], e);
  }

  ghost predicate Told<K(!new), V(!new)>(run: seq<Cache<K, V>>, ops: seq<Op<K, V>>, i: nat)
    requires i <= |ops| < |run|
  {
    && Ok(run[i]) && run[i].ttl == run[0].ttl && run[i].max == run[0].max
    && ByUse(run[i].entries, run, ops, i)
    && forall e :: e in run[i].entries ==> AsWritten(e, run[i].ttl, ops, i)
  }

  lemma {:induction false} RunKeeps<K(!new), V(!new)>(run: seq<Cache<K, V>>, ops: seq<Op<K, V>>, i: nat)
    requires Run(run, ops) && i <= |ops|
    ensures Told(run, ops, i)
  {
    hide ByUse, AsWritten, Next, Distinct;
    if i == 0 {
      ByUseNone(run, ops);
    } else {
      RunKeeps(run, ops, i - 1);
      var c, op := run[i - 1], ops[i - 1];
      assert Enabled(c, op) && run[i] == Next(c, op);
      StepKeeps(c, op);
      SameLimits(c, op);
      ByUseStep(run, ops, i - 1);
      forall e | e in run[i].entries
        ensures AsWritten(e, c.ttl, ops, i)
      {
        AsWrittenStep(c, ops, i - 1, e);
      }
    }
  }

  lemma ByUseNone<K(!new), V(!new)>(run: seq<Cache<K, V>>, ops: seq<Op<K, V>>)
    requires Run(run, ops)
    ensures ByUse(run[0].entries, run, ops, 0) && Distinct(run[0].entries)
  {
  }

  /** In every run the cache stays within its limit with no key twice, and lists its entries by last
      use; so the entry a full cache gives up for a new key, the last one, is the least recently used. */
  lemma EvictsLeastRecent<K(!new), V(!new)>(run: seq<Cache<K, V>>, ops: seq<Op<K, V>>, i: nat)
    requires Run(run, ops) && i < |ops| && ops[i].DoSet? && Find(run[i].entries, ops[i].key) == |run[i].entries| == run[i].max > 0
    ensures |run[i + 1].entries| == run[i].max && Distinct(run[i + 1].entries)
    ensures run[i + 1].entries[1..] == run[i].entries[..run[i].max - 1] && run[i + 1].evictions == run[i].evictions + 1
    ensures forall a :: 0 <= a < run[i].max - 1 ==>
              LastUse(run, ops, i, run[i].entries[a].key) > LastUse(run, ops, i, run[i].entries[run[i].max - 1].key)
  {
    hide LastUse, AsWritten, Find;
    RunKeeps(run, ops, i);
    RunKeeps(run, ops, i + 1);
    forall a | 0 <= a < run[i].max - 1
      ensures LastUse(run, ops, i, run[i].entries[a].key) > LastUse(run, ops, i, run[i].entries[run[i].max - 1].key)
    {
      assert Later(run, ops, i, run[i].entries[a], run[i].entries[run[i].max - 1]);
    }
    assert run[i + 1] == Next(run[i], ops[i]);
  }

  /** A read that finds its key gives the value last written under it; the key was not removed since,
      and the write is younger than the time to live unless its age is one of those misjudged, which
      none under 2^31 ms is. */
  lemma GetGivesLastSet<K(!new), V(!new)>(run: seq<Cache<K, V>>, ops: seq<Op<K, V>>, i: nat)
    requires Run(run, ops) && i < |ops| && ops[i].DoGet? && Get(run[i], ops[i].key, ops[i].now).1.Some?
    ensures var u := LastSet(ops, i, ops[i].key);
            && u >= 0 && Get(run[i], ops[i].key, ops[i].now).1 == Some(ops[u].value)
            && (forall j :: u < j < i ==> ops[j] != DoRemove(ops[i].key))
            && (0 < run[0].ttl < 0x8000_0000 && ops[u].now <= ops[i].now ==>
                  var age := ops[i].now - ops[u].now;
                  age < run[0].ttl || (age >= 0x8000_0000 && exists turn :: Misjudged(run[0].ttl, age, turn)))
  {
    hide LastSet, ByUse, Find, Distinct, Misjudged, Expired;
    RunKeeps(run, ops, i);
    var k := Find(run[i].entries, ops[i].key);
    assert AsWritten(run[i].entries[k], run[i].ttl, ops, i);
    var u := LastSet(ops, i, ops[i].key);
    if 0 < run[0].ttl < 0x8000_0000 && ops[u].now <= ops[i].now {
      ExpiryIsExact(run[0].ttl, ops[i].now, ops[u].now);
      NotMisjudgedYoung(run[0].ttl, ops[i].now - ops[u].now);
    }
  }

  lemma NotMisjudgedYoung(ttl: int, age: int)
    ensures forall turn :: Misjudged(ttl, age, turn) ==> age >= 0x8000_0000
  {
  }

  /** The clock reading by which an operation judges the entry at index k, if it judges it. */
  function Judged<K(==), V>(c: Cache<K, V>, op: Op<K, V>, k: nat): Option<int>
    requires k < |c.entries| && Enabled(c, op)
  {
    match op
    case DoGet(key, now) => if key == c.entries[k].key then Some(now) else None
    case DoHas(key, now) => if key == c.entries[k].key then Some(now) else None
    case DoSweep(times) => Some(times[k])
    case _ => None
  }

  /** Nothing is dropped for its age too early: an entry that a read, a look or a sweep takes out was
      last written at least the time to live before the clock reading that judged it. */
  lemma NeverDroppedEarly<K(!new), V(!new)>(run: seq<Cache<K, V>>, ops: seq<Op<K, V>>, i: nat, k: nat)
    requires Run(run, ops) && i < |ops| && k < |run[i].entries| && Judged(run[i], ops[i], k).Some?
    requires 0 < run[0].ttl < 0x8000_0000
    requires var u := LastSet(ops, i, run[i].entries[k].key); u >= 0 && ops[u].now <= Judged(run[i], ops[i], k).value
    requires Find(run[i + 1].entries, run[i].entries[k].key) == |run[i + 1].entries|
    ensures Judged(run[i], ops[i], k).value - ops[LastSet(ops, i, run[i].entries[k].key)].now >= run[0].ttl
  {
    hide LastSet, ByUse, Find, Expired, Kept, Without;
    RunKeeps(run, ops, i);
    var c, op, e := run[i], ops[i], run[i].entries[k];
    assert Enabled(c, op) && run[i + 1] == Next(c, op);
    assert AsWritten(e, c.ttl, ops, i);
    DroppedIsExpired(c, op, k);
    ExpiryIsExact(c.ttl, Judged(c, op, k).value, e.stamp);
  }

  lemma DroppedIsExpired<K(!new), V(!new)>(c: Cache<K, V>, op: Op<K, V>, k: nat)
    requires Ok(c) && Enabled(c, op) && k < |c.entries| && Judged(c, op, k).Some?
    ensures Find(Next(c, op).entries, c.entries[k].key) == |Next(c, op).entries| ==> Expired(c.ttl, Judged(c, op, k).value, c.entries[k].stamp)
  {
    hide Find, Expired, Kept, Without;
    var es, fs := c.entries, Next(c, op).entries;
    if !Expired(c.ttl, Judged(c, op, k).value, es[k].stamp) {
      if op.DoSweep? {
        KeptExactly(es, c.ttl, op.times, k);
      } else {
        assert Find(es, op.key) == k by {
          assert Distinct(es);
        }
        assert op.DoGet? ==> fs[0] == es[k];
      }
      assert es[k] in fs;
    }
  }

  ghost function Keys<K, V>(es: seq<Entry<K, V>>): set<K> {
    set j | 0 <= j < |es| :: es[j].key
  }

  lemma {:induction false} CountKeys<K(!new), V(!new)>(es: seq<Entry<K, V>>)
    requires Distinct(es)
    ensures |Keys(es)| == |es|
  {
    if es != [] {
      var n := |es| - 1;
      CountKeys(es[..n]);
      assert Keys(es) == Keys(es[..n]) + {es[n].key};
      assert es[n].key !in Keys(es[..n]);
    }
  }

  lemma UsedIsThere<K(!new), V(!new)>(c: Cache<K, V>, op: Op<K, V>, x: K)
    requires Enabled(c, op) && Touches(c, op, x) && c.max > 0
    ensures Find(Next(c, op).entries, x) < |Next(c, op).entries|
  {
    hide Expired, Without;
    assert Next(c, op).entries[0].key == x;
  }

  predicate Evicts<K(==), V>(c: Cache<K, V>, op: Op<K, V>, x: K) {
    op.DoSet? && Find(c.entries, op.key) == |c.entries| == c.max > 0 && c.entries[c.max - 1].key == x
  }

  /** With no time to live, only a new key in a full cache, or its own removal, takes a key out. */
  lemma OnlyEvictionDrops<K(!new), V(!new)>(c: Cache<K, V>, op: Op<K, V>, x: K)
    requires Enabled(c, op) && Ok(c) && c.ttl <= 0 && op != DoRemove(x) && !Evicts(c, op, x)
    requires Find(c.entries, x) < |c.entries|
    ensures Find(Next(c, op).entries, x) < |Next(c, op).entries|
  {
    hide Find, Without, Kept, Distinct;
    var es, fs := c.entries, Next(c, op).entries;
    var k := Find(es, x);
    if op.DoSweep? {
      KeepsAll(es, c.ttl, op.times);
    } else {
      var j := Find(es, op.key);
      if j < |es| && j != k { WithoutKeeps(es, j, k); }
      assert exists e :: e in fs && e.key == x by {
        if j < |es| && j != k {
          assert es[k] in fs;
        } else if j < |es| {
          assert fs[0] in fs;
        } else if op.DoSet? {
          assert fs[k + 1] == es[k];
        } else {
          assert es[k] in fs;
        }
      }
    }
  }

  lemma WithoutKeeps<K(!new), V(!new)>(es: seq<Entry<K, V>>, j: nat, k: nat)
    requires j < |es| && k < |es| && j != k
    ensures es[k] in Without(es, j)
  {
    assert Without(es, j)[if k < j then k else k - 1] == es[k];
  }

  lemma {:induction false} KeepsAll<K(!new), V(!new)>(es: seq<Entry<K, V>>, ttl: int, times: seq<int>)
    requires |times| == |es| && ttl <= 0
    ensures Kept(es, ttl, times) == es
  {
    if es != [] {
      KeepsAll(es[1..], ttl, times[1..]);
    }
  }

  /** With no time to live, a key that was used and not removed since is missing only if as many other
      keys as the cache holds were used after it: the cache always holds the most recent ones. */
  lemma {:induction false} MissMeansOld<K(!new), V(!new)>(run: seq<Cache<K, V>>, ops: seq<Op<K, V>>, i: nat, x: K) returns (newer: set<K>)
    requires Run(run, ops) && i <= |ops| && run[0].ttl <= 0
    requires LastUse(run, ops, i, x) >= 0 && forall j :: LastUse(run, ops, i, x) < j < i ==> ops[j] != DoRemove(x)
    requires Find(run[i].entries, x) == |run[i].entries|
    ensures |newer| == run[0].max && forall y :: y in newer ==> LastUse(run, ops, i, y) > LastUse(run, ops, i, x)
  {
    hide LastUse, ByUse, AsWritten, Next, Find, Touches, Distinct;
    var c, op := run[i - 1], ops[i - 1];
    RunKeeps(run, ops, i - 1);
    RunKeeps(run, ops, i);
    assert Enabled(c, op) && run[i] == Next(c, op);
    UnusedLater(run, ops, i - 1, x);
    if c.max == 0 {
      newer := {};
    } else if Touches(c, op, x) {
      UsedIsThere(c, op, x);
      assert false;
    } else if Find(c.entries, x) == |c.entries| {
      newer := MissMeansOld(run, ops, i - 1, x);
      forall y | y in newer
        ensures LastUse(run, ops, i, y) > LastUse(run, ops, i, x)
      {
        UnusedLater(run, ops, i - 1, y);
      }
    } else {
      if !Evicts(c, op, x) { OnlyEvictionDrops(c, op, x); }
      newer := EvictedIsOldest(run, ops, i - 1, x);
    }
  }

  lemma EvictedIsOldest<K(!new), V(!new)>(run: seq<Cache<K, V>>, ops: seq<Op<K, V>>, i: nat, x: K) returns (newer: set<K>)
    requires Run(run, ops) && i < |ops| && !Touches(run[i], ops[i], x)
    requires ops[i].DoSet? && Find(run[i].entries, ops[i].key) == |run[i].entries| == run[i].max > 0 && run[i].entries[run[i].max - 1].key == x
    ensures |newer| == run[i].max && forall y :: y in newer ==> LastUse(run, ops, i + 1, y) > LastUse(run, ops, i + 1, x)
  {
    hide LastUse, Find;
    var es, n := run[i].entries, run[i].max;
    EvictsLeastRecent(run, ops, i);
    var fs := run[i + 1].entries;
    CountKeys(fs);
    newer := Keys(fs);
    UnusedLater(run, ops, i, x);
    assert fs[0].key == ops[i].key by {
      assert run[i + 1] == Next(run[i], ops[i]);
    }
    forall y | y in newer
      ensures LastUse(run, ops, i + 1, y) > LastUse(run, ops, i + 1, x)
    {
      UnusedLater(run, ops, i, y);
      var a :| 0 <= a < |fs| && fs[a].key == y;
      if a > 0 {
        assert fs[a] == fs[1..][a - 1] == es[a - 1];
      }
    }
  }
}
