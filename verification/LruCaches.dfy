/** The string-keyed cache of sourcepawn/async2_lru.inc: a linked list for the order of use, and one
    integer-keyed object that holds the entries under their node ids and, in slot -1, the node id of
    every key. */
module LruCaches {
  import opened ByteStrings
  import opened Cells
  import L = RecyclingLists
  import R = RecencyCaches

  const MAPPING := -1
  const KEY_LENGTH: nat := 256

  datatype Slot<V> = Mapping(ids: map<string, int>) | Stored(k: string, v: V, e: int)

  /** A key read into the fixed buffer. */
  function Buffered(k: string): string {
    if |k| < KEY_LENGTH then k else k[..KEY_LENGTH - 1]
  }

  // ---- Insertion and eviction on the parts, for keys of any length ----

  datatype Parts<V> = Parts(lru: L.List, data: map<int, Slot<V>>)

  predicate HasMapping<V>(data: map<int, Slot<V>>) {
    MAPPING in data && data[MAPPING].Mapping?
  }

  function Inserted<V>(p: Parts<V>, key: string, value: V, stamp: int): Parts<V>
    requires HasMapping(p.data)
  {
    var id := L.Cell(L.NewId(p.lru));
    var ids := p.data[MAPPING].ids[key := id];
    Parts(L.PushFront(p.lru, 0), p.data[id := Stored(key, value, stamp)][MAPPING := Mapping(ids)])
  }

  /** The tail leaves the list and the data; what leaves the mapping is its key as far as the buffer
      holds it. Without an entry for the tail the script stops there. */
  function Evicted<V>(p: Parts<V>): Parts<V>
    requires HasMapping(p.data)
  {
    var id := L.Cell(L.Last(p.lru));
    if p.lru.items == [] || id !in p.data || p.data[id].Mapping? then p
    else
      var ids := p.data[MAPPING].ids - {Buffered(p.data[id].k)};
      Parts(L.Remove(p.lru, L.NodeId(id)), p.data[MAPPING := Mapping(ids)] - {id})
  }

  // ---- List, mapping and data agree ----

  ghost predicate Small(items: seq<L.Item>) {
    forall i :: 0 <= i < |items| ==> 0 < items[i].id < 0x8000_0000
  }

  ghost predicate MapAgrees<V>(items: seq<L.Item>, ids: map<string, int>, es: seq<R.Entry<string, V>>) {
    && |items| == |es|
    && (forall i :: 0 <= i < |es| ==> es[i].key in ids && ids[es[i].key] == items[i].id && |es[i].key| < KEY_LENGTH)
    && (forall key :: key in ids ==> R.Find(es, key) < |es|)
  }

  ghost predicate DataAgrees<V>(items: seq<L.Item>, data: map<int, Slot<V>>, es: seq<R.Entry<string, V>>) {
    && |items| == |es|
    && (forall i :: 0 <= i < |es| ==> items[i].id in data && data[items[i].id] == Stored(es[i].key, es[i].value, es[i].stamp))
    && (forall c :: c in data && c != MAPPING ==> 0 <= c < L.ID_LIMIT && L.Find(items, c) < |items|)
  }

  ghost predicate Agree<V>(items: seq<L.Item>, data: map<int, Slot<V>>, es: seq<R.Entry<string, V>>) {
    && Small(items) && MAPPING in data && data[MAPPING].Mapping?
    && MapAgrees(items, data[MAPPING].ids, es) && DataAgrees(items, data, es)
  }

  lemma MapDrop<V>(items: seq<L.Item>, ids: map<string, int>, es: seq<R.Entry<string, V>>, k: nat)
    requires MapAgrees(items, ids, es) && R.Distinct(es) && k < |es|
    ensures MapAgrees(L.Without(items, k), ids - {es[k].key}, R.Without(es, k))
  {
    hide R.Find;
    var t, u := R.Without(es, k), L.Without(items, k);
    forall i | 0 <= i < |t|
      ensures t[i].key in ids - {es[k].key} && ids[t[i].key] == u[i].id && |t[i].key| < KEY_LENGTH
    {
      var j := if i < k then i else i + 1;
      assert t[i] == es[j] && u[i] == items[j];
    }
    forall key | key in ids - {es[k].key}
      ensures R.Find(t, key) < |t|
    {
      var i := R.Find(es, key);
      R.FoundKey(t, if i < k then i else i - 1);
    }
  }

  lemma DataDrop<V>(items: seq<L.Item>, data: map<int, Slot<V>>, es: seq<R.Entry<string, V>>, k: nat)
    requires DataAgrees(items, data, es) && L.Distinct(items) && k < |es|
    ensures DataAgrees(L.Without(items, k), data - {items[k].id}, R.Without(es, k))
  {
    hide L.Find;
    var t, u := L.Without(items, k), R.Without(es, k);
    assert forall i :: 0 <= i < |t| ==> t[i] == items[if i < k then i else i + 1] && u[i] == es[if i < k then i else i + 1];
    forall c | c in data - {items[k].id} && c != MAPPING
      ensures L.Find(t, c) < |t|
    {
      var i := L.Find(items, c);
      L.FoundId(t, if i < k then i else i - 1);
    }
  }

  lemma MapFront<V>(items: seq<L.Item>, ids: map<string, int>, es: seq<R.Entry<string, V>>, item: L.Item, e: R.Entry<string, V>)
    requires MapAgrees(items, ids, es) && |e.key| < KEY_LENGTH && R.Find(es, e.key) == |es|
    ensures MapAgrees([item] + items, ids[e.key := item.id], [e] + es)
  {
    hide R.Find;
    var t := [e] + es;
    forall key | key in ids[e.key := item.id]
      ensures R.Find(t, key) < |t|
    {
      R.FoundKey(t, if key == e.key then 0 else R.Find(es, key) + 1);
    }
  }

  lemma DataFront<V>(items: seq<L.Item>, data: map<int, Slot<V>>, es: seq<R.Entry<string, V>>, item: L.Item, e: R.Entry<string, V>)
    requires DataAgrees(items, data, es) && L.Find(items, item.id) == |items|
    ensures DataAgrees([item] + items, data[item.id := Stored(e.key, e.value, e.stamp)], [e] + es)
  {
    hide L.Find;
    var t := [item] + items;
    forall c | c in data[item.id := Stored(e.key, e.value, e.stamp)] && c != MAPPING
      ensures L.Find(t, c) < |t|
    {
      L.FoundId(t, if c == item.id then 0 else L.Find(items, c) + 1);
    }
  }

  lemma DataSlot<V>(items: seq<L.Item>, data: map<int, Slot<V>>, es: seq<R.Entry<string, V>>, ids: map<string, int>)
    requires Small(items) && DataAgrees(items, data, es)
    ensures DataAgrees(items, data[MAPPING := Mapping(ids)], es)
  {
    hide L.Find;
  }

  lemma SmallWithout(items: seq<L.Item>, k: nat)
    requires Small(items) && k < |items|
    ensures Small(L.Without(items, k)) && Small([items[k]] + L.Without(items, k))
  {
  }

  lemma AgreeDrop<V>(items: seq<L.Item>, data: map<int, Slot<V>>, es: seq<R.Entry<string, V>>, k: nat)
    requires Agree(items, data, es) && L.Distinct(items) && R.Distinct(es) && k < |es| == |items|
    ensures Agree(L.Without(items, k), data[MAPPING := Mapping(data[MAPPING].ids - {es[k].key})] - {items[k].id}, R.Without(es, k))
  {
    hide MapAgrees, DataAgrees, L.Without, R.Without, L.Distinct, R.Distinct;
    var ids := data[MAPPING].ids - {es[k].key};
    MapDrop(items, data[MAPPING].ids, es, k);
    DataSlot(items, data, es, ids);
    DataDrop(items, data[MAPPING := Mapping(ids)], es, k);
    SmallWithout(items, k);
  }

  lemma AgreePut<V>(items: seq<L.Item>, data: map<int, Slot<V>>, es: seq<R.Entry<string, V>>, item: L.Item, e: R.Entry<string, V>)
    requires Agree(items, data, es) && L.Find(items, item.id) == |items| && R.Find(es, e.key) == |es|
    requires |e.key| < KEY_LENGTH && 0 < item.id < 0x8000_0000
    ensures var d := data[item.id := Stored(e.key, e.value, e.stamp)];
            Agree([item] + items, d[MAPPING := Mapping(data[MAPPING].ids[e.key := item.id])], [e] + es)
  {
    hide MapAgrees, DataAgrees, L.Find, R.Find;
    var ids := data[MAPPING].ids[e.key := item.id];
    MapFront(items, data[MAPPING].ids, es, item, e);
    DataFront(items, data, es, item, e);
    DataSlot([item] + items, data[item.id := Stored(e.key, e.value, e.stamp)], [e] + es, ids);
  }

  lemma AgreeMove<V(!new)>(items: seq<L.Item>, data: map<int, Slot<V>>, es: seq<R.Entry<string, V>>, k: nat, e: R.Entry<string, V>)
    requires Agree(items, data, es) && L.Distinct(items) && R.Distinct(es) && k < |es| == |items| && e.key == es[k].key
    ensures Agree([items[k]] + L.Without(items, k), data[items[k].id := Stored(e.key, e.value, e.stamp)], [e] + R.Without(es, k))
  {
    hide MapAgrees, DataAgrees, L.Find, R.Find, L.Without, R.Without, L.Distinct, R.Distinct;
    var ids, id := data[MAPPING].ids, items[k].id;
    AgreeAt(items, data, es, k);
    MapDrop(items, ids, es, k);
    DataDrop(items, data, es, k);
    SmallWithout(items, k);
    WithoutKey(es, k);
    WithoutId(items, k);
    MapFront(L.Without(items, k), ids - {e.key}, R.Without(es, k), items[k], e);
    DataFront(L.Without(items, k), data - {id}, R.Without(es, k), items[k], e);
    assert (ids - {e.key})[e.key := id] == ids;
    assert (data - {id})[id := Stored(e.key, e.value, e.stamp)] == data[id := Stored(e.key, e.value, e.stamp)];
  }

  lemma WithoutKey<V(!new)>(es: seq<R.Entry<string, V>>, k: nat)
    requires R.Distinct(es) && k < |es|
    ensures R.Find(R.Without(es, k), es[k].key) == |es| - 1
  {
    R.WithoutDistinct(es, k);
  }

  lemma WithoutId(items: seq<L.Item>, k: nat)
    requires L.Distinct(items) && k < |items|
    ensures L.Find(L.Without(items, k), items[k].id) == |items| - 1 == |L.Without(items, k)|
  {
    hide L.Find;
    var t := L.Without(items, k);
    assert forall i :: 0 <= i < |t| ==> t[i] == items[if i < k then i else i + 1];
  }

  /** What the entry at an index looks like in the three places. */
  lemma AgreeAt<V>(items: seq<L.Item>, data: map<int, Slot<V>>, es: seq<R.Entry<string, V>>, k: nat)
    requires Agree(items, data, es) && k < |es|
    ensures |items| == |es| && 0 < items[k].id < 0x8000_0000 && L.Cell(items[k].id) == items[k].id == L.NodeId(items[k].id)
    ensures es[k].key in data[MAPPING].ids && data[MAPPING].ids[es[k].key] == items[k].id && Buffered(es[k].key) == es[k].key
    ensures items[k].id in data && data[items[k].id] == Stored(es[k].key, es[k].value, es[k].stamp)
  {
    hide L.Find, R.Find;
  }

  lemma AgreeKey<V>(items: seq<L.Item>, data: map<int, Slot<V>>, es: seq<R.Entry<string, V>>, key: string)
    requires Agree(items, data, es)
    ensures key in data[MAPPING].ids <==> R.Find(es, key) < |es|
    ensures |items| == |es|
  {
    hide L.Find, R.Find;
  }

  class LruCache<V(!new)> {
    var lru: L.List
    var data: map<int, Slot<V>>
    const maxEntries: nat
    const ttlMs: int
    var evictions: int
    var hits: int
    var misses: int
    ghost var entries: seq<R.Entry<string, V>>

    ghost function View(): R.Cache<string, V>
      reads this
    {
      R.Cache(entries, maxEntries, ttlMs, evictions, hits, misses)
    }

    ghost function Whole(): Parts<V>
      reads this`lru, this`data
    {
      Parts(lru, data)
    }

    /** The list is in order, its ids are all accounted for, and so none is beyond the limit plus one. */
    ghost predicate ListOk()
      reads this`lru
    {
      L.Ok(lru) && L.Accounted(lru) && lru.drawn <= maxEntries + 1 && maxEntries < 0x7FFF_FFFF
    }

    /** Agreement, also while an insert is over the limit by one. */
    ghost predicate Linked()
      reads this`lru, this`data, this`entries
    {
      ListOk() && Agree(lru.items, data, entries) && R.Distinct(entries)
    }

    ghost predicate Valid()
      reads this`lru, this`data, this`entries
    {
      Linked() && |entries| <= maxEntries
    }

    constructor (maxEntries: nat, ttlSeconds: int)
      requires maxEntries < 0x7FFF_FFFF
      ensures Valid() && View() == R.Cache([], maxEntries, Low32(ttlSeconds * 1000), 0, 0, 0)
    {
      lru := L.Fresh;
      data := map[MAPPING := Mapping(map[])];
      this.maxEntries, ttlMs := maxEntries, Low32(ttlSeconds * 1000);
      evictions, hits, misses := 0, 0, 0;
      entries := [];
    }

    /** Takes one entry out of the mapping, the data and the list. */
    method DropEntry(key: string, nodeId: int, ghost k: nat)
      requires Linked() && k < |entries| == |lru.items| && key == entries[k].key && nodeId == lru.items[k].id
      modifies this`data, this`lru, this`entries
      ensures Linked() && entries == R.Without(old(entries), k) && lru.items == L.Without(old(lru).items, k)
      ensures HasMapping(old(data)) && lru == L.Remove(old(lru), L.NodeId(nodeId))
      ensures data == old(data)[MAPPING := Mapping(old(data)[MAPPING].ids - {key})] - {nodeId}
    {
      hide L.Ok, MapAgrees, DataAgrees, L.Find, R.Find, R.Distinct, L.Without, R.Without;
      AgreeAt(lru.items, data, entries, k);
      L.OkDistinct(lru);
      AgreeDrop(lru.items, data, entries, k);
      L.FoundId(lru.items, k);
      L.StepKeeps(lru, L.DoRemove(L.NodeId(nodeId)));
      L.StepAccounts(lru, L.DoRemove(L.NodeId(nodeId)));
      R.WithoutDistinct(entries, k);
      data := data[MAPPING := Mapping(data[MAPPING].ids - {key})];
      data := data - {nodeId};
      lru := L.Remove(lru, L.NodeId(nodeId));
      entries := R.Without(entries, k);
    }

    method EvictOldest()
      requires Linked() && entries != []
      modifies this`data, this`lru, this`entries, this`evictions
      ensures Linked() && evictions == old(evictions) + 1 && entries == old(entries)[..|old(entries)| - 1]
      ensures HasMapping(old(data)) && Whole() == Evicted(old(Whole()))
    {
      hide L.Ok, MapAgrees, DataAgrees, R.Distinct, L.Find, R.Find;
      var tail := L.Last(lru);
      ghost var k := |entries| - 1;
      AgreeAt(lru.items, data, entries, k);
      if tail == 0 { return; }
      var nodeId := L.Cell(tail);
      var key := Buffered(data[nodeId].k);
      DropEntry(key, nodeId, k);
      evictions := evictions + 1;
    }

    method SetExisting(key: string, value: V, now: int)
      requires Valid() && R.Find(entries, key) < |entries|
      modifies this`data, this`lru, this`entries
      ensures Valid() && View() == R.Set(old(View()), key, value, now)
    {
      hide L.Ok, MapAgrees, DataAgrees, L.Find, R.Find, L.Without, R.Without, R.Distinct;
      ghost var k := R.Find(entries, key);
      ghost var e := R.Written(ttlMs, key, value, entries[k].stamp, now);
      AgreeAt(lru.items, data, entries, k);
      L.OkDistinct(lru);
      AgreeMove(lru.items, data, entries, k, e);
      L.FoundId(lru.items, k);
      R.SetKeeps(View(), key, value, now);
      var nodeId := data[MAPPING].ids[key];
      L.StepKeeps(lru, L.DoMoveToFront(L.NodeId(nodeId)));
      L.StepAccounts(lru, L.DoMoveToFront(L.NodeId(nodeId)));
      lru := L.MoveToFront(lru, L.NodeId(nodeId));
      var entry := data[nodeId].(v := value);
      if ttlMs > 0 { entry := entry.(e := now); }
      data := data[nodeId := entry];
      entries := [e] + R.Without(entries, k);
    }

    method PushNew(key: string, value: V, now: int)
      requires Valid() && R.Find(entries, key) == |entries| && |key| < KEY_LENGTH
      modifies this`data, this`lru, this`entries
      ensures Linked() && entries == [R.Written(ttlMs, key, value, 0, now)] + old(entries)
      ensures HasMapping(old(data)) && Whole() == Inserted(old(Whole()), key, value, if ttlMs > 0 then now else 0)
    {
      hide L.Ok, MapAgrees, DataAgrees, L.Find, R.Find, R.Distinct, L.NewId, L.Draw;
      AgreeKey(lru.items, data, entries, key);
      L.IdInRange(lru, maxEntries);          // so the new slot is not the one of the mapping
      ghost var e := R.Written(ttlMs, key, value, 0, now);
      L.StepKeeps(lru, L.DoPushFront(0));
      L.StepAccounts(lru, L.DoPushFront(0));
      L.DrawItems(lru);
      AgreePut(lru.items, data, entries, L.Item(L.NewId(lru), 0), e);
      R.FrontDistinct(e, entries);
      var node := L.NewId(lru);
      lru := L.PushFront(lru, 0);
      var nodeId := L.Cell(node);
      var entry := Stored(key, value, 0);
      if ttlMs > 0 { entry := entry.(e := now); }
      var mapping := data[MAPPING].ids;
      data := data[nodeId := entry];
      data := data[MAPPING := Mapping(mapping[key := nodeId])];
      entries := [e] + entries;
    }

    method SetValue(key: string, value: V, now: int)
      requires Valid() && |key| < KEY_LENGTH
      modifies this`data, this`lru, this`entries, this`evictions
      ensures Valid() && View() == R.Set(old(View()), key, value, now)
    {
      hide Inserted, Evicted, HasMapping, L.PushFront, L.Remove, ListOk, Agree, R.Find, R.Distinct, R.Without;
      ghost var c := View();
      AgreeView(key);
      if key in data[MAPPING].ids {
        SetExisting(key, value, now);
      } else {
        PushNew(key, value, now);
        ghost var es := entries;
        SameLength();
        while Low32(|lru.items|) > maxEntries
          invariant Linked() && |entries| == |lru.items| <= maxEntries + 1 < 0x8000_0000
          invariant |es| - |entries| == evictions - c.evictions >= 0 && entries == es[..|entries|]
          invariant |entries| >= maxEntries || entries == es
          decreases |entries|
        {
          EvictOldest();
          SameLength();
        }
      }
    }

    lemma AgreeView(key: string)
      requires Linked()
      ensures MAPPING in data && data[MAPPING].Mapping? && (key in data[MAPPING].ids <==> R.Find(entries, key) < |entries|)
      ensures |lru.items| == |entries| && maxEntries < 0x7FFF_FFFF
    {
      AgreeKey(lru.items, data, entries, key);
    }

    lemma SameLength()
      requires Linked()
      ensures |lru.items| == |entries|
    {
    }

    /** What a key that is in the mapping leads to. */
    lemma AgreeEntry(key: string)
      requires Linked() && R.Find(entries, key) < |entries|
      ensures MAPPING in data && data[MAPPING].Mapping? && key in data[MAPPING].ids && |lru.items| == |entries|
      ensures var k, id := R.Find(entries, key), data[MAPPING].ids[key];
              && id == lru.items[k].id && id in data && data[id] == Stored(key, entries[k].value, entries[k].stamp)
    {
      AgreeAt(lru.items, data, entries, R.Find(entries, key));
    }

    method GetValue(key: string, now: int) returns (found: Option<V>)
      requires Valid()
      modifies this
      ensures Valid() && (View(), found) == R.Get(old(View()), key, now)
    {
      hide ListOk, Agree, R.Find, R.Distinct, R.Without, R.Expired;
      AgreeView(key);
      if key !in data[MAPPING].ids {
        misses := misses + 1;
        return None;
      }
      AgreeEntry(key);
      ghost var k := R.Find(entries, key);
      var nodeId := data[MAPPING].ids[key];
      var entry := data[nodeId];
      if R.Expired(ttlMs, now, entry.e) {
        DropEntry(key, nodeId, k);
        evictions := evictions + 1;
        misses := misses + 1;
        return None;
      }
      MoveUp(key, nodeId);
      hits := hits + 1;
      return Some(entry.v);
    }

    method MoveUp(key: string, nodeId: int)
      requires Valid() && R.Find(entries, key) < |entries| == |lru.items| && nodeId == lru.items[R.Find(entries, key)].id
      modifies this`lru, this`entries
      ensures Valid() && entries == [old(entries)[R.Find(old(entries), key)]] + R.Without(old(entries), R.Find(old(entries), key))
    {
      hide L.Ok, MapAgrees, DataAgrees, L.Find, R.Find, L.Without, R.Without, R.Distinct;
      ghost var k := R.Find(entries, key);
      AgreeAt(lru.items, data, entries, k);
      L.OkDistinct(lru);
      AgreeMove(lru.items, data, entries, k, entries[k]);
      assert data[nodeId := data[nodeId]] == data;
      L.FoundId(lru.items, k);
      R.WithoutDistinct(entries, k);
      R.FrontDistinct(entries[k], R.Without(entries, k));
      L.StepKeeps(lru, L.DoMoveToFront(L.NodeId(nodeId)));
      L.StepAccounts(lru, L.DoMoveToFront(L.NodeId(nodeId)));
      lru := L.MoveToFront(lru, L.NodeId(nodeId));
      entries := [entries[k]] + R.Without(entries, k);
    }

    method Has(key: string, now: int) returns (found: bool)
      requires Valid()
      modifies this
      ensures Valid() && (View(), found) == R.Has(old(View()), key, now)
    {
      hide ListOk, Agree, R.Find, R.Distinct, R.Without;
      AgreeView(key);
      if key !in data[MAPPING].ids { return false; }
      AgreeEntry(key);
      if ttlMs > 0 {
        var nodeId := data[MAPPING].ids[key];
        if R.Expired(ttlMs, now, data[nodeId].e) {
          DropEntry(key, nodeId, R.Find(entries, key));
          evictions := evictions + 1;
          return false;
        }
      }
      return true;
    }

    method Remove(key: string)
      requires Valid()
      modifies this
      ensures Valid() && View() == R.Remove(old(View()), key)
    {
      hide ListOk, Agree, R.Find, R.Distinct, R.Without;
      AgreeView(key);
      if key !in data[MAPPING].ids { return; }
      AgreeEntry(key);
      DropEntry(key, data[MAPPING].ids[key], R.Find(entries, key));
    }

    /** The sweep walks from the least to the most recent entry; times holds the clock reading made
        for each entry, by its place in the list. */
    method EvictExpired(times: seq<int>) returns (count: nat)
      requires Valid() && |times| == |entries|
      modifies this`data, this`lru, this`entries, this`evictions
      ensures Valid() && (View(), count) == R.Sweep(old(View()), times)
    {
      hide ListOk, Agree, R.Find, R.Distinct, R.Without, R.Kept, R.Expired;
      ghost var es := entries;
      if ttlMs <= 0 {
        R.KeepsAll(entries, ttlMs, times);
        return 0;
      }
      count := 0;
      SameLength();
      var i := |times|;
      R.KeptNone(es, ttlMs, times);
      var node := L.Last(lru);
      while node != 0
        invariant Linked() && 0 <= i <= |entries| == |lru.items| && i <= |es|
        invariant entries == es[..i] + R.Kept(es[i..], ttlMs, times[i..])
        invariant node == if i == 0 then 0 else lru.items[i - 1].id
        invariant count == |es| - |entries| && evictions == old(evictions) + count
        decreases i
      {
        i := i - 1;
        R.KeptMore(es, ttlMs, times, i);
        var gone;
        node, gone := SweepOne(node, times[i], i);
        if gone { count := count + 1; }
      }
      NoZero();
      assert i == 0;
      assert es[0..] == es && times[0..] == times;
      assert entries == R.Kept(es, ttlMs, times);
    }

    lemma NoZero()
      requires Linked()
      ensures forall i :: 0 <= i < |lru.items| ==> lru.items[i].id != 0
    {
    }

    /** One turn of the sweep, on the entry at index i. */
    method SweepOne(node: L.U32, now: int, ghost i: nat) returns (prev: L.U32, gone: bool)
      requires Linked() && i < |entries| == |lru.items| && node == lru.items[i].id
      modifies this`data, this`lru, this`entries, this`evictions
      ensures Linked() && |lru.items| == |entries|
      ensures gone == R.Expired(ttlMs, now, old(entries)[i].stamp)
      ensures entries == (if gone then R.Without(old(entries), i) else old(entries)) && evictions == old(evictions) + (if gone then 1 else 0)
      ensures i > 0 ==> |lru.items| >= i && prev == lru.items[i - 1].id
      ensures i == 0 ==> prev == 0
    {
      hide L.Ok, MapAgrees, DataAgrees, R.Find, R.Distinct, R.Expired, L.Find;
      L.OkDistinct(lru);
      L.FoundId(lru.items, i);
      AgreeAt(lru.items, data, entries, i);
      prev := L.PrevOf(lru, node);
      var nodeId := L.Cell(node);
      var entry := data[nodeId];
      gone := R.Expired(ttlMs, now, entry.e);
      if gone {
        DropEntry(Buffered(entry.k), nodeId, i);
        evictions := evictions + 1;
      }
    }

    method Size() returns (size: int)
      requires Valid()
      ensures size == |entries| <= maxEntries
    {
      hide L.Ok, MapAgrees, DataAgrees, R.Distinct;
      SameLength();
      size := Low32(|lru.items|);
    }
  }
}
