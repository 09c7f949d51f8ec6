/** Keys that do not fit the buffer of the eviction (LRU_MAX_KEY_LENGTH in sourcepawn/async2_lru.inc). */
module LongKeys {
  import opened LruCaches
  import L = RecyclingLists

  /** The key is found at place k of the list. */
  ghost predicate Names<V>(p: Parts<V>, key: string, k: nat) {
    && HasMapping(p.data) && k < |p.lru.items| && key in p.data[MAPPING].ids
    && var id := p.data[MAPPING].ids[key];
       id == L.Cell(p.lru.items[k].id) && id in p.data && p.data[id].Stored? && p.data[id].k == key
  }

  /** The mapping forgets an evicted key if and only if the key fits the buffer. One that does not
      fit goes on naming a node that has no entry. */
  lemma ForgottenIfItFits<V>(p: Parts<V>, key: string)
    requires p.lru.items != [] && Names(p, key, |p.lru.items| - 1)
    ensures var q := Evicted(p);
            && HasMapping(q.data)
            && (key !in q.data[MAPPING].ids <==> |key| < KEY_LENGTH)
            && (key in q.data[MAPPING].ids ==> q.data[MAPPING].ids[key] !in q.data)
  {
    var q := Evicted(p);
    assert key in q.data[MAPPING].ids <==> Buffered(key) != key;
  }

  /** Of the other keys, the eviction forgets exactly the one that is as much of the evicted key as the
      buffer holds, though its node and its entry are still there. */
  lemma OtherForgottenIfCut<V>(p: Parts<V>, key: string, other: string, i: nat)
    requires L.Distinct(p.lru.items) && i < |p.lru.items| - 1 && Names(p, key, |p.lru.items| - 1) && Names(p, other, i) && other != key
    ensures var q, id := Evicted(p), p.data[MAPPING].ids[other];
            && HasMapping(q.data)
            && (other !in q.data[MAPPING].ids <==> |key| >= KEY_LENGTH && other == key[..KEY_LENGTH - 1])
            && i < |q.lru.items| && q.lru.items[i] == p.lru.items[i] && id in q.data && q.data[id] == p.data[id]
  {
    hide L.Find;
    var q, k := Evicted(p), |p.lru.items| - 1;
    assert other in q.data[MAPPING].ids <==> Buffered(key) != other;
    L.CellAndBack(p.lru.items[i].id);
    L.CellAndBack(p.lru.items[k].id);
    L.FoundId(p.lru.items, k);
  }

  function Empty<V>(): (p: Parts<V>)
    ensures HasMapping(p.data)
  {
    Parts(L.Fresh, map[MAPPING := Mapping(map[])])
  }

  /** The entry a read of the key would find. */
  function Found<V>(p: Parts<V>, key: string): Slot<V>
    requires HasMapping(p.data) && key in p.data[MAPPING].ids && p.data[MAPPING].ids[key] in p.data
  {
    p.data[p.data[MAPPING].ids[key]]
  }

  /** In a cache for one entry, a key that does not fit the buffer is still found after two other
      keys were written, and what is found is the other key's entry. */
  lemma LongKeyIsMistaken<V>(key: string, b: string, c: string, v: V, w: V, x: V)
    requires |key| >= KEY_LENGTH && |b| < KEY_LENGTH && |c| < KEY_LENGTH && b != c
    requires Buffered(key) !in {b, c}
    ensures var first := Inserted(Empty(), key, v, 0);
            var second := Evicted(Inserted(first, b, w, 0));
            HasMapping(second.data) &&
            var third := Evicted(Inserted(second, c, x, 0));
            && HasMapping(third.data) && |third.lru.items| == 1
            && key in third.data[MAPPING].ids && third.data[MAPPING].ids[key] in third.data
            && Found(third, key) == Stored(c, x, 0)
  {
    var first := Inserted(Empty(), key, v, 0);
    assert first.lru == L.List([L.Item(1, 0)], [], 2, 1);
    var both := Inserted(first, b, w, 0);
    assert both.lru == L.List([L.Item(2, 0), L.Item(1, 0)], [], 3, 2);
    var second := Evicted(both);
    assert L.Find(both.lru.items, 1) == 1;
    assert second.lru == L.List([L.Item(2, 0)], [1], 3, 2);
    assert second.data[MAPPING].ids == map[key := 1, b := 2];
    var again := Inserted(second, c, x, 0);
    assert again.lru == L.List([L.Item(1, 0), L.Item(2, 0)], [], 3, 2);
    assert L.Find(again.lru.items, 2) == 1;
  }
}
