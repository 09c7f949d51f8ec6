/** The integer-keyed cache of sourcepawn/async2_lru.inc: the entries under their own keys, each with
    its node id, and the key as the value of the node. */
module IntLruCaches {
  import opened ByteStrings
  import opened Cells
  import L = RecyclingLists
  import R = RecencyCaches

  datatype Slot<V> = Slot(v: V, n: int, e: int)

  // ---- List and data agree ----

  ghost predicate Agree<V>(items: seq<L.Item>, data: map<int, Slot<V>>, es: seq<R.Entry<int, V>>) {
    && |items| == |es|
    && (forall i :: 0 <= i < |es| ==> items[i].value == es[i].key)
    && (forall i :: 0 <= i < |es| ==> es[i].key in data && data[es[i].key] == Slot(es[i].value, L.Cell(items[i].id), es[i].stamp))
    && (forall key :: key in data ==> R.Find(es, key) < |es|)
  }

  lemma AgreeDrop<V>(items: seq<L.Item>, data: map<int, Slot<V>>, es: seq<R.Entry<int, V>>, k: nat)
    requires Agree(items, data, es) && R.Distinct(es) && k < |es|
    ensures Agree(L.Without(items, k), data - {es[k].key}, R.Without(es, k))
  {
    hide R.Find, L.Cell;
    var t, u := R.Without(es, k), L.Without(items, k);
    forall i | 0 <= i < |t|
      ensures u[i].value == t[i].key && t[i].key in data - {es[k].key} && data[t[i].key] == Slot(t[i].value, L.Cell(u[i].id), t[i].stamp)
    {
      var j := if i < k then i else i + 1;
      assert t[i] == es[j] && u[i] == items[j];
    }
    forall key | key in data - {es[k].key}
      ensures R.Find(t, key) < |t|
    {
      var i := R.Find(es, key);
      R.FoundKey(t, if i < k then i else i - 1);
    }
  }

  lemma AgreePut<V>(items: seq<L.Item>, data: map<int, Slot<V>>, es: seq<R.Entry<int, V>>, item: L.Item, e: R.Entry<int, V>)
    requires Agree(items, data, es) && R.Find(es, e.key) == |es| && item.value == e.key
    ensures Agree([item] + items, data[e.key := Slot(e.value, L.Cell(item.id), e.stamp)], [e] + es)
  {
    hide R.Find, L.Cell;
    var t, d := [e] + es, data[e.key := Slot(e.value, L.Cell(item.id), e.stamp)];
    forall key | key in d
      ensures R.Find(t, key) < |t|
    {
      R.FoundKey(t, if key == e.key then 0 else R.Find(es, key) + 1);
    }
  }

  lemma AgreeMove<V(!new)>(items: seq<L.Item>, data: map<int, Slot<V>>, es: seq<R.Entry<int, V>>, k: nat, e: R.Entry<int, V>)
    requires Agree(items, data, es) && R.Distinct(es) && k < |es| == |items| && e.key == es[k].key
    ensures Agree([items[k]] + L.Without(items, k), data[e.key := Slot(e.value, L.Cell(items[k].id), e.stamp)], [e] + R.Without(es, k))
  {
    hide Agree, R.Find, L.Without, R.Without, R.Distinct, L.Cell;
    AgreeAt(items, data, es, k);
    AgreeDrop(items, data, es, k);
    R.WithoutDistinct(es, k);
    AgreePut(L.Without(items, k), data - {e.key}, R.Without(es, k), items[k], e);
    assert (data - {e.key})[e.key := Slot(e.value, L.Cell(items[k].id), e.stamp)] == data[e.key := Slot(e.value, L.Cell(items[k].id), e.stamp)];
  }

  lemma AgreeAt<V>(items: seq<L.Item>, data: map<int, Slot<V>>, es: seq<R.Entry<int, V>>, k: nat)
    requires Agree(items, data, es) && k < |es|
    ensures |items| == |es| && items[k].value == es[k].key && L.NodeId(L.Cell(items[k].id)) == items[k].id
    ensures es[k].key in data && data[es[k].key] == Slot(es[k].value, L.Cell(items[k].id), es[k].stamp)
  {
    hide R.Find;
    L.CellAndBack(items[k].id);
  }

  lemma AgreeKey<V>(items: seq<L.Item>, data: map<int, Slot<V>>, es: seq<R.Entry<int, V>>, key: int)
    requires Agree(items, data, es)
    ensures key in data <==> R.Find(es, key) < |es|
    ensures |items| == |es|
  {
    hide R.Find;
  }

  class IntLruCache<V(!new)> {
    var lru: L.List
    var data: map<int, Slot<V>>
    const maxEntries: nat
    const ttlMs: int
    var evictions: int
    var hits: int
    var misses: int
    ghost var entries: seq<R.Entry<int, V>>

    ghost function View(): R.Cache<int, V>
      reads this
    {
      R.Cache(entries, maxEntries, ttlMs, evictions, hits, misses)
    }

    ghost predicate ListOk()
      reads this`lru
    {
      L.Ok(lru) && L.Accounted(lru) && lru.drawn <= maxEntries + 1 && maxEntries < 0x7FFF_FFFF
    }

    /** Agreement, also while an insert is over the limit by one. */
    ghost predicate Linked()
      reads this`lru, this`data, this`entries
    {
      ListOk() && Agree(lru.items, data, entries) && R.Distinct(entries)
    }

    ghost predicate Valid()
      reads this`lru, this`data, this`entries
    {
      Linked() && |entries| <= maxEntries
    }

    constructor (maxEntries: nat, ttlSeconds: int)
      requires maxEntries < 0x7FFF_FFFF
      ensures Valid() && View() == R.Cache([], maxEntries, Low32(ttlSeconds * 1000), 0, 0, 0)
    {
      lru := L.Fresh;
      data := map[];
      this.maxEntries, ttlMs := maxEntries, Low32(ttlSeconds * 1000);
      evictions, hits, misses := 0, 0, 0;
      entries := [];
    }

    /** Takes one entry out of the data and the list. */
    method DropEntry(key: int, nodeId: int, ghost k: nat)
      requires Linked() && k < |entries| == |lru.items| && key == entries[k].key && L.NodeId(nodeId) == lru.items[k].id
      modifies this`data, this`lru, this`entries
      ensures Linked() && entries == R.Without(old(entries), k) && lru.items == L.Without(old(lru).items, k)
    {
      hide L.Ok, Agree, L.Find, R.Find, R.Distinct, L.Without, R.Without;
      L.OkDistinct(lru);
      AgreeDrop(lru.items, data, entries, k);
      L.FoundId(lru.items, k);
      L.StepKeeps(lru, L.DoRemove(L.NodeId(nodeId)));
      L.StepAccounts(lru, L.DoRemove(L.NodeId(nodeId)));
      R.WithoutDistinct(entries, k);
      data := data - {key};
      lru := L.Remove(lru, L.NodeId(nodeId));
      entries := R.Without(entries, k);
    }

    method EvictOldest()
      requires Linked() && entries != []
      modifies this`data, this`lru, this`entries, this`evictions
      ensures Linked() && evictions == old(evictions) + 1 && entries == old(entries)[..|old(entries)| - 1]
    {
      hide L.Ok, Agree, R.Distinct, L.Find, R.Find;
      var tail := L.Last(lru);
      ghost var k := |entries| - 1;
      AgreeAt(lru.items, data, entries, k);
      NoZero();
      if tail == 0 { return; }
      L.OkDistinct(lru);
      L.FoundId(lru.items, k);
      var key := L.GetValue(lru, tail);
      L.CellAndBack(tail);
      DropEntry(key, L.Cell(tail), k);
      evictions := evictions + 1;
    }

    method SetExisting(key: int, value: V, now: int)
      requires Valid() && R.Find(entries, key) < |entries|
      modifies this`data, this`lru, this`entries
      ensures Valid() && View() == R.Set(old(View()), key, value, now)
    {
      hide L.Ok, Agree, L.Find, R.Find, L.Without, R.Without, R.Distinct;
      ghost var k := R.Find(entries, key);
      ghost var e := R.Written(ttlMs, key, value, entries[k].stamp, now);
      AgreeAt(lru.items, data, entries, k);
      L.OkDistinct(lru);
      AgreeMove(lru.items, data, entries, k, e);
      L.FoundId(lru.items, k);
      R.SetKeeps(View(), key, value, now);
      var entry := data[key];
      var nodeId := entry.n;
      L.StepKeeps(lru, L.DoMoveToFront(L.NodeId(nodeId)));
      L.StepAccounts(lru, L.DoMoveToFront(L.NodeId(nodeId)));
      lru := L.MoveToFront(lru, L.NodeId(nodeId));
      entry := entry.(v := value);
      if ttlMs > 0 { entry := entry.(e := now); }
      data := data[key := entry];
      entries := [e] + R.Without(entries, k);
    }

    method PushNew(key: int, value: V, now: int)
      requires Valid() && R.Find(entries, key) == |entries|
      modifies this`data, this`lru, this`entries
      ensures Linked() && entries == [R.Written(ttlMs, key, value, 0, now)] + old(entries)
    {
      hide L.Ok, Agree, L.Find, R.Find, R.Distinct, L.NewId, L.Draw;
      AgreeKey(lru.items, data, entries, key);
      L.IdInRange(lru, maxEntries);
      ghost var e := R.Written(ttlMs, key, value, 0, now);
      L.StepKeeps(lru, L.DoPushFront(key));
      L.StepAccounts(lru, L.DoPushFront(key));
      L.DrawItems(lru);
      AgreePut(lru.items, data, entries, L.Item(L.NewId(lru), key), e);
      R.FrontDistinct(e, entries);
      var node := L.NewId(lru);
      lru := L.PushFront(lru, key);
      var entry := Slot(value, L.Cell(node), 0);
      if ttlMs > 0 { entry := entry.(e := now); }
      data := data[key := entry];
      entries := [e] + entries;
    }

    method SetValue(key: int, value: V, now: int)
      requires Valid()
      modifies this`data, this`lru, this`entries, this`evictions
      ensures Valid() && View() == R.Set(old(View()), key, value, now)
    {
      hide ListOk, Agree, R.Find, R.Distinct, R.Without;
      ghost var c := View();
      AgreeView(key);
      if key in data {
        SetExisting(key, value, now);
      } else {
        PushNew(key, value, now);
        ghost var es := entries;
        SameLength();
        while Low32(|lru.items|) > maxEntries
          invariant Linked() && |entries| == |lru.items| <= maxEntries + 1 < 0x8000_0000
          invariant |es| - |entries| == evictions - c.evictions >= 0 && entries == es[..|entries|]
          invariant |entries| >= maxEntries || entries == es
          decreases |entries|
        {
          EvictOldest();
          SameLength();
        }
      }
    }

    lemma AgreeView(key: int)
      requires Linked()
      ensures key in data <==> R.Find(entries, key) < |entries|
      ensures |lru.items| == |entries| && maxEntries < 0x7FFF_FFFF
    {
      AgreeKey(lru.items, data, entries, key);
    }

    lemma SameLength()
      requires Linked()
      ensures |lru.items| == |entries|
    {
    }

    lemma NoZero()
      requires Linked()
      ensures forall i :: 0 <= i < |lru.items| ==> lru.items[i].id != 0
    {
    }

    /** What a key that is in the data leads to. */
    lemma AgreeEntry(key: int)
      requires Linked() && R.Find(entries, key) < |entries|
      ensures key in data && |lru.items| == |entries|
      ensures var k := R.Find(entries, key);
              L.NodeId(data[key].n) == lru.items[k].id && data[key].v == entries[k].value && data[key].e == entries[k].stamp
    {
      AgreeAt(lru.items, data, entries, R.Find(entries, key));
    }

    method GetValue(key: int, now: int) returns (found: Option<V>)
      requires Valid()
      modifies this
      ensures Valid() && (View(), found) == R.Get(old(View()), key, now)
    {
      hide ListOk, Agree, R.Find, R.Distinct, R.Without, R.Expired;
      AgreeView(key);
      if key !in data {
        misses := misses + 1;
        return None;
      }
      AgreeEntry(key);
      var entry := data[key];
      if R.Expired(ttlMs, now, entry.e) {
        DropEntry(key, entry.n, R.Find(entries, key));
        evictions := evictions + 1;
        misses := misses + 1;
        return None;
      }
      MoveUp(key, entry.n);
      hits := hits + 1;
      return Some(entry.v);
    }

    method MoveUp(key: int, nodeId: int)
      requires Valid() && R.Find(entries, key) < |entries| == |lru.items| && L.NodeId(nodeId) == lru.items[R.Find(entries, key)].id
      modifies this`lru, this`entries
      ensures Valid() && entries == [old(entries)[R.Find(old(entries), key)]] + R.Without(old(entries), R.Find(old(entries), key))
    {
      hide L.Ok, Agree, L.Find, R.Find, L.Without, R.Without, R.Distinct;
      ghost var k := R.Find(entries, key);
      AgreeAt(lru.items, data, entries, k);
      L.OkDistinct(lru);
      AgreeMove(lru.items, data, entries, k, entries[k]);
      assert data[key := data[key]] == data;
      L.FoundId(lru.items, k);
      R.WithoutDistinct(entries, k);
      R.FrontDistinct(entries[k], R.Without(entries, k));
      L.StepKeeps(lru, L.DoMoveToFront(L.NodeId(nodeId)));
      L.StepAccounts(lru, L.DoMoveToFront(L.NodeId(nodeId)));
      lru := L.MoveToFront(lru, L.NodeId(nodeId));
      entries := [entries[k]] + R.Without(entries, k);
    }

    method Has(key: int, now: int) returns (found: bool)
      requires Valid()
      modifies this
      ensures Valid() && (View(), found) == R.Has(old(View()), key, now)
    {
      hide ListOk, Agree, R.Find, R.Distinct, R.Without;
      AgreeView(key);
      if key !in data { return false; }
      AgreeEntry(key);
      if ttlMs > 0 && R.Expired(ttlMs, now, data[key].e) {
        DropEntry(key, data[key].n, R.Find(entries, key));
        evictions := evictions + 1;
        return false;
      }
      return true;
    }

    method Remove(key: int)
      requires Valid()
      modifies this
      ensures Valid() && View() == R.Remove(old(View()), key)
    {
      hide ListOk, Agree, R.Find, R.Distinct, R.Without;
      AgreeView(key);
      if key !in data { return; }
      AgreeEntry(key);
      DropEntry(key, data[key].n, R.Find(entries, key));
    }

    /** The sweep walks from the least to the most recent entry; times holds the clock reading made
        for each entry, by its place in the list. */
    method EvictExpired(times: seq<int>) returns (count: nat)
      requires Valid() && |times| == |entries|
      modifies this`data, this`lru, this`entries, this`evictions
      ensures Valid() && (View(), count) == R.Sweep(old(View()), times)
    {
      hide ListOk, Agree, R.Find, R.Distinct, R.Without, R.Kept, R.Expired;
      ghost var es := entries;
      if ttlMs <= 0 {
        R.KeepsAll(entries, ttlMs, times);
        return 0;
      }
      count := 0;
      SameLength();
      var i := |times|;
      R.KeptNone(es, ttlMs, times);
      var node := L.Last(lru);
      while node != 0
        invariant Linked() && 0 <= i <= |entries| == |lru.items| && i <= |es|
        invariant entries == es[..i] + R.Kept(es[i..], ttlMs, times[i..])
        invariant node == if i == 0 then 0 else lru.items[i - 1].id
        invariant count == |es| - |entries| && evictions == old(evictions) + count
        decreases i
      {
        i := i - 1;
        R.KeptMore(es, ttlMs, times, i);
        var gone;
        node, gone := SweepOne(node, times[i], i);
        if gone { count := count + 1; }
      }
      NoZero();
      assert i == 0;
      assert es[0..] == es && times[0..] == times;
      assert entries == R.Kept(es, ttlMs, times);
    }

    /** One turn of the sweep, on the entry at index i. */
    method SweepOne(node: L.U32, now: int, ghost i: nat) returns (prev: L.U32, gone: bool)
      requires Linked() && i < |entries| == |lru.items| && node == lru.items[i].id
      modifies this`data, this`lru, this`entries, this`evictions
      ensures Linked() && |lru.items| == |entries|
      ensures gone == R.Expired(ttlMs, now, old(entries)[i].stamp)
      ensures entries == (if gone then R.Without(old(entries), i) else old(entries)) && evictions == old(evictions) + (if gone then 1 else 0)
      ensures i > 0 ==> |lru.items| >= i && prev == lru.items[i - 1].id
      ensures i == 0 ==> prev == 0
    {
      hide L.Ok, Agree, R.Find, R.Distinct, R.Expired, L.Find;
      L.OkDistinct(lru);
      L.FoundId(lru.items, i);
      AgreeAt(lru.items, data, entries, i);
      prev := L.PrevOf(lru, node);
      var key := L.GetValue(lru, node);
      var entry := data[key];
      gone := R.Expired(ttlMs, now, entry.e);
      if gone {
        DropEntry(key, L.Cell(node), i);
        evictions := evictions + 1;
      }
    }

    method Size() returns (size: int)
      requires Valid()
      ensures size == |entries| <= maxEntries
    {
      hide L.Ok, Agree, R.Distinct;
      SameLength();
      size := Low32(|lru.items|);
    }
  }
}
