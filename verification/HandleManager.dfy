/** The handle table as the code updates it, each method proved to take its step. */
module HandleManager {
  import opened ByteStrings
  import opened Handles

  class Manager {
    var cursor: Id
    var used: map<LiveId, Handle>
    var plugins: map<Plugin, set<LiveId>>
    ghost var walked: nat

    ghost function View(): Table
      reads this
    {
      Table(cursor, used, plugins, walked)
    }

    ghost predicate Valid()
      reads this
    {
      Inv(View())
    }

    constructor ()
      ensures View() == Empty && Valid()
    {
      cursor, used, plugins, walked := 1, map[], map[], 0;
      new;
      EmptyInv();
    }

    /** The probing loop: it stops, at the first free id or back where it started. */
    method Probe() returns (id: Id, ghost n: nat)
      requires Valid()
      ensures n == Skips(used.Keys, SkipZero(cursor), 0)
      ensures id == Created(View())
    {
      hide IndexExact, Nth, Skips, PlaceOf, IdAt;
      ghost var e := SkipZero(cursor);
      var start := cursor;
      var candidate := start;
      n := 0;
      NextIsNth(e, 0);
      while true
        invariant n < ID_COUNT && SkipZero(candidate) == Nth(e, n)
        invariant Skips(used.Keys, e, n) == Skips(used.Keys, e, 0)
        invariant n > 0 ==> used != map[]
        decreases ID_COUNT - n
      {
        if candidate == 0 { candidate := 1; }
        SkipsStep(used.Keys, e, n);
        if candidate !in used { return candidate, n; }
        NextIsNth(e, n);
        candidate := Succ(candidate);
        n := n + 1;
        if candidate == start {
          SkipsStep(used.Keys, e, n);
          return 0, n;
        }
      }
    }

    lemma SkipsStep(ids: set<LiveId>, e: LiveId, n: nat)
      requires n <= ID_COUNT
      ensures Skips(ids, e, n) == if n == ID_COUNT || Nth(e, n) !in ids then n else Skips(ids, e, n + 1)
    {
    }

    method CreateHandle(target: nat, kind: nat, owner: Option<Plugin>) returns (id: Id)
      requires Valid()
      modifies this
      ensures View() == Next(old(View()), Create(target, kind, owner)) && Valid()
      ensures id == old(Created(View()))
      ensures id == 0 <==> forall x: LiveId :: x in old(used)
      ensures id != 0 ==> id !in old(used) && used == old(used)[id := Handle(kind, target, owner, false)]
    {
      hide Inv, Skips, Nth;
      CreatedIsFree(View());
      StepKeeps(View(), Create(target, kind, owner));
      var h := Handle(kind, target, owner, false);
      ghost var n;
      id, n := Probe();
      if id == 0 {
        walked := walked + ID_COUNT;
        return;
      }
      cursor := Succ(id);
      used := used[id := h];
      if owner.Some? {
        plugins := plugins[owner.value := (if owner.value in plugins then plugins[owner.value] else {}) + {id}];
      }
      walked := walked + n + 1;
    }

    /** The typed getters: the object of an open handle of the kind. */
    method GetPointer(id: Id, kind: nat) returns (r: Option<nat>)
      ensures r == Lookup(View(), id, kind)
    {
      if id == 0 || id !in used { return None; }
      if used[id].kind != kind || used[id].closed { return None; }
      return Some(used[id].target);
    }

    method RemoveFromPluginSet(owner: Plugin, id: LiveId)
      modifies this`plugins
      ensures plugins == Remove(old(plugins), Some(owner), id)
    {
      if owner in plugins {
        var rest := plugins[owner] - {id};
        plugins := plugins[owner := rest];
        if rest == {} { plugins := plugins - {owner}; }
      }
      assert old(plugins)[owner := {}] - {owner} == old(plugins) - {owner};
    }

    method FreeHandle(id: Id)
      requires Valid()
      modifies this
      ensures View() == Next(old(View()), Free(id)) && Valid()
    {
      hide Inv, Remove;
      StepKeeps(View(), Free(id));
      if id != 0 && id in used {
        if used[id].owner.Some? { RemoveFromPluginSet(used[id].owner.value, id); }
        RemoveNobody(plugins, id);
        used := used - {id};
      }
    }

    lemma RemoveNobody(ps: map<Plugin, set<LiveId>>, id: LiveId)
      ensures Remove(ps, None, id) == ps
    {
    }

    method MarkHandleClosed(id: Id)
      requires Valid()
      modifies this
      ensures View() == Next(old(View()), MarkClosed(id)) && Valid()
    {
      hide Inv;
      StepKeeps(View(), MarkClosed(id));
      if id != 0 && id in used { used := used[id := used[id].(closed := true)]; }
    }

    method TransferHandle(id: Id, newOwner: Option<Plugin>) returns (ok: bool)
      requires Valid()
      modifies this
      ensures View() == Next(old(View()), Transfer(id, newOwner)) && Valid()
      ensures ok <==> id != 0 && id in old(used) && !old(used)[id].closed
      ensures ok ==> used == old(used)[id := old(used)[id].(owner := newOwner)]
    {
      hide Inv, Remove;
      StepKeeps(View(), Transfer(id, newOwner));
      if id == 0 || id !in used || used[id].closed { return false; }
      if used[id].owner == newOwner { return true; }
      if used[id].owner.Some? { RemoveFromPluginSet(used[id].owner.value, id); }
      RemoveNobody(plugins, id);
      used := used[id := used[id].(owner := newOwner)];
      if newOwner.Some? {
        plugins := plugins[newOwner.value := (if newOwner.value in plugins then plugins[newOwner.value] else {}) + {id}];
      }
      return true;
    }

    /** The handles of a plugin, each once and with its owner cleared, in some order. */
    method TakePluginHandles(p: Plugin) returns (taken: seq<(LiveId, Handle)>)
      requires Valid()
      modifies this
      ensures View() == Next(old(View()), Take(p)) && Valid()
      ensures forall k :: 0 <= k < |taken| ==> taken[k].0 in Owned(old(used), p) && taken[k].1 == old(used)[taken[k].0].(owner := None)
      ensures forall j, k :: 0 <= j < k < |taken| ==> taken[j].0 != taken[k].0
      ensures forall id :: id in Owned(old(used), p) ==> exists k :: 0 <= k < |taken| && taken[k].0 == id
    {
      hide Inv;
      StepKeeps(View(), Take(p));
      ghost var owned := Owned(used, p);
      OwnedIsListed(View(), p);
      taken := [];
      if p !in plugins { return; }
      var rest := plugins[p];
      plugins := plugins - {p};
      ghost var before := used;
      DisownNone(used);
      while rest != {}
        invariant rest <= owned && used == Disown(before, owned - rest)
        invariant unchanged(`cursor) && unchanged(`walked) && plugins == old(plugins) - {p}
        invariant Picked(taken, before, owned, rest)
        decreases rest
      {
        var id :| id in rest;
        if id in used {
          PickOne(taken, before, owned, rest, id);
          used := used[id := used[id].(owner := None)];
          taken := taken + [(id, used[id])];
        }
        rest := rest - {id};
      }
      assert owned - rest == owned;
    }

    /** The part of a plugin's handles already taken: each once, and none still to come. */
    static ghost predicate Picked(taken: seq<(LiveId, Handle)>, before: map<LiveId, Handle>, owned: set<LiveId>, rest: set<LiveId>) {
      && owned <= before.Keys
      && (forall k :: 0 <= k < |taken| ==> taken[k].0 in owned - rest && taken[k].1 == before[taken[k].0].(owner := None))
      && (forall j, k :: 0 <= j < k < |taken| ==> taken[j].0 != taken[k].0)
      && (forall id :: id in owned - rest ==> exists k :: 0 <= k < |taken| && taken[k].0 == id)
    }

    static lemma PickOne(taken: seq<(LiveId, Handle)>, before: map<LiveId, Handle>, owned: set<LiveId>, rest: set<LiveId>, id: LiveId)
      requires Picked(taken, before, owned, rest) && id in rest && rest <= owned
      ensures Picked(taken + [(id, before[id].(owner := None))], before, owned, rest - {id})
      ensures Disown(before, owned - rest)[id] == before[id]
      ensures Disown(before, owned - rest)[id := before[id].(owner := None)] == Disown(before, owned - (rest - {id}))
    {
      var more := taken + [(id, before[id].(owner := None))];
      forall x | x in owned - (rest - {id})
        ensures exists k :: 0 <= k < |more| && more[k].0 == x
      {
        if x == id {
          assert more[|taken|].0 == x;
        } else {
          assert x in owned - rest;
          var k :| 0 <= k < |taken| && taken[k].0 == x;
          assert more[k].0 == x;
        }
      }
    }

    static lemma DisownNone(before: map<LiveId, Handle>)
      ensures Disown(before, {}) == before
    {
    }

    static lemma OwnedIsListed(t: Table, p: Plugin)
      requires Inv(t)
      ensures Listed(t.plugins, p) == Owned(t.used, p)
    {
    }

    method CleanHandles()
      requires Valid()
      modifies this
      ensures View() == Next(old(View()), Clean) && Valid()
    {
      hide Inv;
      StepKeeps(View(), Clean);
      used := map[];
      plugins := map[];
    }
  }
}
