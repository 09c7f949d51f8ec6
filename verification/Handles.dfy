/** The table of script handles: ids from a cursor that walks the nonzero 32-bit ids, and the index
    of each plugin's handles (src/handle_manager.cpp). */
module Handles {
  import opened ByteStrings

  // ---- Ids and the walk over them ----

  const ID_COUNT: nat := 0xFFFF_FFFF          // nonzero 32-bit integers

  type Id = x: int | -0x8000_0000 <= x < 0x8000_0000
  type LiveId = x: int | -0x8000_0000 <= x < 0x8000_0000 && x != 0 witness 1
  type Place = p: int | 0 <= p < ID_COUNT

  /** The increment the cursor makes, with 32-bit wrap-around. */
  function Succ(x: Id): Id {
    if x == 0x7FFF_FFFF then -0x8000_0000 else x + 1
  }

  function SkipZero(x: Id): LiveId {
    if x == 0 then 1 else x
  }

  /** Where a nonzero id comes in the walk 1, 2, ..., 2^31 - 1, -2^31, ..., -1. */
  function PlaceOf(id: LiveId): Place {
    if id > 0 then id - 1 else id + ID_COUNT
  }

  function IdAt(p: Place): (id: LiveId)
    ensures PlaceOf(id) == p
  {
    if p <= 0x7FFF_FFFE then p + 1 else p - ID_COUNT
  }

  /** The id n places after e. */
  function Nth(e: LiveId, n: nat): LiveId
    requires n <= ID_COUNT
  {
    var p := PlaceOf(e) + n;
    IdAt(if p < ID_COUNT then p else p - ID_COUNT)
  }

  lemma NextIsNth(e: LiveId, n: nat)
    requires n < ID_COUNT
    ensures SkipZero(Succ(Nth(e, n))) == Nth(e, n + 1)
    ensures Nth(e, 0) == e
    ensures Nth(e, n + 1) == e <==> n + 1 == ID_COUNT
  {
  }

  /** Some number of places leads from any id to any other. */
  function Offset(e: LiveId, x: LiveId): (n: nat)
    ensures n < ID_COUNT && Nth(e, n) == x
  {
    if PlaceOf(x) >= PlaceOf(e) then PlaceOf(x) - PlaceOf(e) else PlaceOf(x) + ID_COUNT - PlaceOf(e)
  }

  /** Ids in use before the first free one, starting at e. */
  ghost function Skips(used: set<LiveId>, e: LiveId, from: nat): (k: nat)
    requires from <= ID_COUNT
    ensures from <= k <= ID_COUNT
    ensures forall m :: from <= m < k ==> Nth(e, m) in used
    ensures k < ID_COUNT ==> Nth(e, k) !in used
    decreases ID_COUNT - from
  {
    if from == ID_COUNT || Nth(e, from) !in used then from else Skips(used, e, from + 1)
  }

  // ---- The table ----

  type Plugin = nat
  datatype Handle = Handle(kind: nat, target: nat, owner: Option<Plugin>, closed: bool)

  datatype Table = Table(
    cursor: Id,                          // next_handle_
    used: map<LiveId, Handle>,
    plugins: map<Plugin, set<LiveId>>,
    walked: nat)                         // ids probed so far

  const Empty := Table(1, map[], map[], 0)

  datatype Action =
    | Create(target: nat, kind: nat, owner: Option<Plugin>)
    | Free(id: Id)
    | MarkClosed(id: Id)
    | Transfer(id: Id, newOwner: Option<Plugin>)
    | Take(plugin: Plugin)
    | Clean

  // ---- The plugin index ----

  function Owned(used: map<LiveId, Handle>, p: Plugin): set<LiveId> {
    set id | id in used && used[id].owner == Some(p)
  }

  function Listed(plugins: map<Plugin, set<LiveId>>, p: Plugin): set<LiveId> {
    if p in plugins then plugins[p] else {}
  }

  function Insert(plugins: map<Plugin, set<LiveId>>, owner: Option<Plugin>, id: LiveId): map<Plugin, set<LiveId>> {
    if owner.None? then plugins else plugins[owner.value := Listed(plugins, owner.value) + {id}]
  }

  function Remove(plugins: map<Plugin, set<LiveId>>, owner: Option<Plugin>, id: LiveId): map<Plugin, set<LiveId>> {
    if owner.None? || owner.value !in plugins then plugins
    else
      var rest := plugins[owner.value] - {id};
      if rest == {} then plugins - {owner.value} else plugins[owner.value := rest]
  }

  ghost predicate IndexExact(used: map<LiveId, Handle>, plugins: map<Plugin, set<LiveId>>) {
    && (forall p: Plugin :: Listed(plugins, p) == Owned(used, p))
    && (forall p :: p in plugins ==> plugins[p] != {})
  }

  // ---- The steps ----

  ghost function CreateStep(t: Table, h: Handle): Table {
    var e := SkipZero(t.cursor);
    var k := Skips(t.used.Keys, e, 0);
    if k == ID_COUNT then t.(walked := t.walked + ID_COUNT)
    else
      var id := Nth(e, k);
      Table(Succ(id), t.used[id := h], Insert(t.plugins, h.owner, id), t.walked + k + 1)
  }

  /** The id CreateHandle returns: the first free one from the cursor on, or 0. */
  ghost function Created(t: Table): Id {
    var e := SkipZero(t.cursor);
    var k := Skips(t.used.Keys, e, 0);
    if k == ID_COUNT then 0 else Nth(e, k)
  }

  function FreeStep(t: Table, id: Id): Table {
    if id == 0 || id !in t.used then t
    else t.(plugins := Remove(t.plugins, t.used[id].owner, id), used := t.used - {id})
  }

  function MarkStep(t: Table, id: Id): Table {
    if id == 0 || id !in t.used then t
    else t.(used := t.used[id := t.used[id].(closed := true)])
  }

  function TransferStep(t: Table, id: Id, o: Option<Plugin>): Table {
    if id == 0 || id !in t.used || t.used[id].closed || t.used[id].owner == o then t
    else t.(plugins := Insert(Remove(t.plugins, t.used[id].owner, id), o, id), used := t.used[id := t.used[id].(owner := o)])
  }

  function Disown(used: map<LiveId, Handle>, ids: set<LiveId>): (r: map<LiveId, Handle>)
    ensures r.Keys == used.Keys
  {
    map id | id in used :: if id in ids then used[id].(owner := None) else used[id]
  }

  function TakeStep(t: Table, p: Plugin): Table {
    if p !in t.plugins then t
    else t.(plugins := t.plugins - {p}, used := Disown(t.used, t.plugins[p]))
  }

  ghost function Next(t: Table, a: Action): Table {
    match a
    case Create(target, kind, owner) => CreateStep(t, Handle(kind, target, owner, false))
    case Free(id) => FreeStep(t, id)
    case MarkClosed(id) => MarkStep(t, id)
    case Transfer(id, o) => TransferStep(t, id, o)
    case Take(p) => TakeStep(t, p)
    case Clean => t.(used := map[], plugins := map[])
  }

  // ---- What every step keeps ----

  ghost predicate Inv(t: Table) {
    && IndexExact(t.used, t.plugins)
    && (t.cursor == 1 ==> t.used == map[])
    && t.walked % ID_COUNT == PlaceOf(SkipZero(t.cursor))
  }

  lemma InsertExact(used: map<LiveId, Handle>, plugins: map<Plugin, set<LiveId>>, id: LiveId, h: Handle)
    requires IndexExact(used, plugins) && (id in used ==> used[id].owner.None?)
    ensures IndexExact(used[id := h], Insert(plugins, h.owner, id))
  {
    forall p: Plugin
      ensures Listed(Insert(plugins, h.owner, id), p) == Owned(used[id := h], p)
    {
      assert Listed(plugins, p) == Owned(used, p);
    }
  }

  lemma RemoveExact(used: map<LiveId, Handle>, plugins: map<Plugin, set<LiveId>>, id: LiveId)
    requires IndexExact(used, plugins) && id in used
    ensures IndexExact(used - {id}, Remove(plugins, used[id].owner, id))
    ensures IndexExact(used[id := used[id].(owner := None)], Remove(plugins, used[id].owner, id))
  {
    var owner := used[id].owner;
    forall p: Plugin
      ensures Listed(Remove(plugins, owner, id), p) == Owned(used, p) - {id}
    {
      assert Listed(plugins, p) == Owned(used, p);
    }
    forall p: Plugin
      ensures Owned(used - {id}, p) == Owned(used, p) - {id}
      ensures Owned(used[id := used[id].(owner := None)], p) == Owned(used, p) - {id}
    {
    }
  }

  lemma TransferExact(used: map<LiveId, Handle>, plugins: map<Plugin, set<LiveId>>, id: LiveId, o: Option<Plugin>)
    requires IndexExact(used, plugins) && id in used
    ensures IndexExact(used[id := used[id].(owner := o)], Insert(Remove(plugins, used[id].owner, id), o, id))
  {
    RemoveExact(used, plugins, id);
    var u := used[id := used[id].(owner := None)];
    InsertExact(u, Remove(plugins, used[id].owner, id), id, used[id].(owner := o));
    assert u[id := used[id].(owner := o)] == used[id := used[id].(owner := o)];
  }

  lemma TakeExact(used: map<LiveId, Handle>, plugins: map<Plugin, set<LiveId>>, p: Plugin)
    requires IndexExact(used, plugins) && p in plugins
    ensures IndexExact(Disown(used, plugins[p]), plugins - {p})
  {
    assert Listed(plugins, p) == Owned(used, p);
    forall q: Plugin
      ensures Listed(plugins - {p}, q) == Owned(Disown(used, plugins[p]), q)
    {
      assert Listed(plugins, q) == Owned(used, q);
    }
  }

  lemma MarkExact(used: map<LiveId, Handle>, plugins: map<Plugin, set<LiveId>>, id: LiveId)
    requires IndexExact(used, plugins) && id in used
    ensures IndexExact(used[id := used[id].(closed := true)], plugins)
  {
    forall p: Plugin
      ensures Owned(used[id := used[id].(closed := true)], p) == Owned(used, p)
    {
    }
  }

  lemma WalkedMod(e: LiveId, walked: nat, k: nat)
    requires walked % ID_COUNT == PlaceOf(e) && k < ID_COUNT
    ensures (walked + k + 1) % ID_COUNT == PlaceOf(SkipZero(Succ(Nth(e, k))))
    ensures (walked + ID_COUNT) % ID_COUNT == walked % ID_COUNT
  {
    NextIsNth(e, k);
  }

  lemma CreateKeeps(t: Table, h: Handle)
    requires Inv(t)
    ensures Inv(CreateStep(t, h))
  {
    hide IndexExact, Insert, Nth;
    var e := SkipZero(t.cursor);
    var k := Skips(t.used.Keys, e, 0);
    WalkedMod(e, t.walked, if k < ID_COUNT then k else 0);
    if k < ID_COUNT {
      InsertExact(t.used, t.plugins, Nth(e, k), h);
    }
  }

  lemma StepKeeps(t: Table, a: Action)
    requires Inv(t)
    ensures Inv(Next(t, a))
  {
    hide IndexExact, Insert, Remove, CreateStep, Disown;
    match a
    case Create(target, kind, owner) => CreateKeeps(t, Handle(kind, target, owner, false));
    case Free(id) => if id != 0 && id in t.used { RemoveExact(t.used, t.plugins, id); }
    case MarkClosed(id) => if id != 0 && id in t.used { MarkExact(t.used, t.plugins, id); }
    case Transfer(id, o) => if id != 0 && id in t.used { TransferExact(t.used, t.plugins, id, o); }
    case Take(p) =>
      if p in t.plugins {
        TakeExact(t.used, t.plugins, p);
        assert t.used.Keys == {} ==> Disown(t.used, t.plugins[p]) == map[];
      }
    case Clean => EmptyExact();
  }

  lemma EmptyExact()
    ensures IndexExact(map[], map[])
  {
  }

  /** CreateHandle returns 0 exactly when every nonzero id is in use, and a free one otherwise. */
  lemma CreatedIsFree(t: Table)
    ensures Created(t) == 0 <==> forall x: LiveId :: x in t.used
    ensures Created(t) != 0 ==> Created(t) !in t.used
  {
    var e := SkipZero(t.cursor);
    var k := Skips(t.used.Keys, e, 0);
    if k == ID_COUNT {
      forall x: LiveId
        ensures x in t.used
      {
        assert Nth(e, Offset(e, x)) in t.used.Keys;
      }
    }
  }

  // ---- Whole runs ----

  ghost predicate Run(run: seq<Table>, acts: seq<Action>) {
    && |run| == |acts| + 1 && run[0] == Empty
    && forall i :: 0 <= i < |acts| ==> run[i + 1] == Next(run[i], acts[i])
  }

  lemma {:induction false} RunKeeps(run: seq<Table>, acts: seq<Action>, i: nat)
    requires Run(run, acts) && i < |run|
    ensures Inv(run[i])
  {
    hide Inv, Next;
    if i == 0 {
      EmptyInv();
    } else {
      RunKeeps(run, acts, i - 1);
      StepKeeps(run[i - 1], acts[i - 1]);
    }
  }

  lemma EmptyInv()
    ensures Inv(Empty)
  {
  }

  /** Over every run, each plugin's set is exactly the live handles that name it as owner, and no
      empty set is kept. */
  lemma IndexAlwaysExact(run: seq<Table>, acts: seq<Action>, i: nat, p: Plugin)
    requires Run(run, acts) && i < |run|
    ensures Listed(run[i].plugins, p) == set id | id in run[i].used && run[i].used[id].owner == Some(p)
    ensures p in run[i].plugins <==> exists id :: id in run[i].used && run[i].used[id].owner == Some(p)
  {
    hide Next;
    RunKeeps(run, acts, i);
    assert Listed(run[i].plugins, p) == Owned(run[i].used, p);
    if p in run[i].plugins {
      var id :| id in run[i].plugins[p];
      assert id in Owned(run[i].used, p);
    }
    if id :| id in run[i].used && run[i].used[id].owner == Some(p) {
      assert id in Owned(run[i].used, p);
    }
  }

  lemma WalksOn(t: Table, a: Action)
    ensures Next(t, a).walked >= t.walked
    ensures !a.Create? ==> Next(t, a).walked == t.walked
  {
  }

  /** The step in which the walk passed place q. */
  lemma {:induction false} StepAt(run: seq<Table>, acts: seq<Action>, lo: nat, hi: nat, q: nat) returns (k: nat)
    requires Run(run, acts) && lo <= hi < |run|
    requires run[lo].walked <= q < run[hi].walked
    ensures lo <= k < hi && run[k].walked <= q < run[k + 1].walked && acts[k].Create?
    decreases hi - lo
  {
    hide Next;
    WalksOn(run[lo], acts[lo]);
    if q < run[lo + 1].walked {
      k := lo;
    } else {
      k := StepAt(run, acts, lo + 1, hi, q);
    }
  }

  lemma PlaceInWalk(e: LiveId, walked: nat, n: nat)
    requires walked % ID_COUNT == PlaceOf(e) && n < ID_COUNT
    ensures Nth(e, n) == IdAt((walked + n) % ID_COUNT)
  {
    hide IdAt;
    var p := PlaceOf(e) + n;
    assert walked + n == (walked / ID_COUNT) * ID_COUNT + p;
    assert (walked + n) % ID_COUNT == if p < ID_COUNT then p else p - ID_COUNT;
  }

  /** What the walk passes in a step was in use, or is the id issued. */
  lemma PassedIsUsed(t: Table, a: Action, q: nat)
    requires Inv(t) && a.Create? && t.walked <= q < Next(t, a).walked
    ensures var x := IdAt(q % ID_COUNT); x in t.used || Created(t) == x
  {
    hide IndexExact, Nth, PlaceOf, IdAt, Insert;
    var e := SkipZero(t.cursor);
    var n := q - t.walked;
    PlaceInWalk(e, t.walked, n);
    var k := Skips(t.used.Keys, e, 0);
    if n < k {
      assert Nth(e, n) in t.used.Keys;
    }
  }

  /** The place at which a step issued its id. */
  lemma IssuedAt(t: Table, a: Action)
    requires Inv(t) && a.Create? && Created(t) != 0
    ensures t.walked < Next(t, a).walked && Created(t) == IdAt((Next(t, a).walked - 1) % ID_COUNT)
  {
    hide IndexExact, Skips, Nth, PlaceOf, IdAt, Insert;
    var e := SkipZero(t.cursor);
    PlaceInWalk(e, t.walked, Skips(t.used.Keys, e, 0));
  }

  lemma WithinOneTurn(a: nat, b: nat, x: LiveId) returns (q: nat)
    requires a < b && a % ID_COUNT == b % ID_COUNT && IdAt(a % ID_COUNT) != x
    ensures a < q < b && IdAt(q % ID_COUNT) == x
  {
    var p := a % ID_COUNT;
    var d := Offset(IdAt(p), x);
    q := a + d;
    assert b - a >= ID_COUNT;
    assert q % ID_COUNT == if p + d < ID_COUNT then p + d else p + d - ID_COUNT;
  }

  /** A freed id rests: between two issues of the same id, every other nonzero id was issued, or was
      in use when the cursor passed it. */
  lemma EveryOtherIdFirst(run: seq<Table>, acts: seq<Action>, i: nat, j: nat, x: LiveId) returns (k: nat)
    requires Run(run, acts) && i < j < |acts| && acts[i].Create? && acts[j].Create?
    requires Created(run[i]) == Created(run[j]) != 0 && x != Created(run[i])
    ensures i < k <= j && acts[k].Create? && (x in run[k].used || Created(run[k]) == x)
  {
    hide Inv, Next, Created;
    RunKeeps(run, acts, i);
    RunKeeps(run, acts, j);
    IssuedAt(run[i], acts[i]);
    IssuedAt(run[j], acts[j]);
    WalkedUp(run, acts, i + 1, j);
    var a, b := run[i + 1].walked - 1, run[j + 1].walked - 1;
    assert PlaceOf(IdAt(a % ID_COUNT)) == a % ID_COUNT && PlaceOf(IdAt(b % ID_COUNT)) == b % ID_COUNT;
    var q := WithinOneTurn(a, b, x);
    k := StepAt(run, acts, i + 1, j + 1, q);
    RunKeeps(run, acts, k);
    PassedIsUsed(run[k], acts[k], q);
  }

  lemma {:induction false} WalkedUp(run: seq<Table>, acts: seq<Action>, i: nat, j: nat)
    requires Run(run, acts) && i <= j < |run|
    ensures run[i].walked <= run[j].walked
  {
    hide Next;
    if i < j {
      WalkedUp(run, acts, i, j - 1);
      WalksOn(run[j - 1], acts[j - 1]);
    }
  }

  /** What the typed getters return: the object of an open handle of that kind. */
  function Lookup(t: Table, id: Id, kind: nat): Option<nat> {
    if id == 0 || id !in t.used || t.used[id].kind != kind || t.used[id].closed then None else Some(t.used[id].target)
  }

  /** A freed handle, and equally every handle after CleanHandles, stays unknown to every getter until
      its id is issued again. */
  lemma {:induction false} StaleIsUnknown(run: seq<Table>, acts: seq<Action>, id: LiveId, i: nat, j: nat, kind: nat)
    requires Run(run, acts) && i < j < |run| && (acts[i] == Free(id) || acts[i].Clean?)
    requires forall k :: i < k < j && acts[k].Create? ==> Created(run[k]) != id
    ensures id !in run[j].used && Lookup(run[j], id, kind) == None
  {
    hide Created, CreateStep;
    assert run[j] == Next(run[j - 1], acts[j - 1]);
    if j > i + 1 {
      StaleIsUnknown(run, acts, id, i, j - 1, kind);
      OnlyCreateAdds(run[j - 1], acts[j - 1], id);
    }
  }

  lemma OnlyCreateAdds(t: Table, a: Action, id: LiveId)
    requires id !in t.used
    ensures id in Next(t, a).used ==> a.Create? && Created(t) == id
  {
    hide Skips, Nth, Insert, Remove;
  }

  /** A marked handle is hidden from every getter and its id is not handed out, over the whole run until
      it is freed. */
  lemma {:induction false} MarkedIsKept(run: seq<Table>, acts: seq<Action>, id: LiveId, i: nat, j: nat, kind: nat)
    requires Run(run, acts) && i < j < |run| && acts[i] == MarkClosed(id) && id in run[i].used
    requires forall k :: i < k < j ==> acts[k] != Free(id) && !acts[k].Clean?
    ensures id in run[j].used && run[j].used[id].closed && Lookup(run[j], id, kind) == None && Created(run[j]) != id
  {
    hide Created, CreateStep;
    assert run[j] == Next(run[j - 1], acts[j - 1]);
    if j > i + 1 {
      MarkedIsKept(run, acts, id, i, j - 1, kind);
      ClosedStays(run[j - 1], acts[j - 1], id);
    }
    CreatedIsFree(run[j]);
  }

  lemma ClosedStays(t: Table, a: Action, id: LiveId)
    requires id in t.used && t.used[id].closed && a != Free(id) && !a.Clean?
    ensures id in Next(t, a).used && Next(t, a).used[id].closed
  {
    hide Skips, Nth, Insert, Remove;
    if a.Create? { CreatedIsFree(t); }
  }

  // ---- One handle by the history ----

  /** What became of an id: issued, marked, handed over, left without an owner, or freed. */
  ghost function Record(run: seq<Table>, acts: seq<Action>, i: nat, id: LiveId): Option<Handle>
    requires i <= |acts| < |run|
  {
    if i == 0 then None
    else
      var before := Record(run, acts, i - 1, id);
      match acts[i - 1]
      case Create(target, kind, owner) => if Created(run[i - 1]) == id then Some(Handle(kind, target, owner, false)) else before
      case Free(x) => if x == id then None else before
      case Clean => None
      case MarkClosed(x) => if x == id && before.Some? then Some(before.value.(closed := true)) else before
      case Transfer(x, o) => if x == id && before.Some? && !before.value.closed then Some(before.value.(owner := o)) else before
      case Take(p) => if before.Some? && before.value.owner == Some(p) then Some(before.value.(owner := None)) else before
  }

  function At(t: Table, id: LiveId): Option<Handle> {
    if id in t.used then Some(t.used[id]) else None
  }

  lemma CreateIssues(t: Table, h: Handle, id: LiveId)
    ensures At(CreateStep(t, h), id) == if Created(t) == id then Some(h) else At(t, id)
  {
    hide Skips, Nth, Insert;
  }

  lemma TakeLeaves(t: Table, p: Plugin, id: LiveId)
    requires Inv(t)
    ensures At(TakeStep(t, p), id) == if id in t.used && t.used[id].owner == Some(p) then Some(t.used[id].(owner := None)) else At(t, id)
  {
    assert Listed(t.plugins, p) == Owned(t.used, p);
    assert id in Owned(t.used, p) <==> id in t.used && t.used[id].owner == Some(p);
  }

  /** Over every run each id is exactly what its own history makes it, whatever is done to others. */
  lemma {:induction false} RecordExactly(run: seq<Table>, acts: seq<Action>, i: nat, id: LiveId)
    requires Run(run, acts) && i < |run|
    ensures At(run[i], id) == Record(run, acts, i, id)
  {
    hide Created, CreateStep, TakeStep, Inv, Remove, Insert;
    if i > 0 {
      var t, a := run[i - 1], acts[i - 1];
      RecordExactly(run, acts, i - 1, id);
      RunKeeps(run, acts, i - 1);
      assert run[i] == Next(t, a);
      match a
      case Create(target, kind, owner) => CreateIssues(t, Handle(kind, target, owner, false), id);
      case Take(p) => TakeLeaves(t, p, id);
      case _ =>
    }
  }

  /** So a getter finds an object exactly when it was issued under the id with that kind and neither marked nor freed since. */
  lemma FoundExactly(run: seq<Table>, acts: seq<Action>, i: nat, id: LiveId, kind: nat, target: nat)
    requires Run(run, acts) && i < |run|
    ensures Lookup(run[i], id, kind) == Some(target) <==>
              exists owner :: Record(run, acts, i, id) == Some(Handle(kind, target, owner, false))
  {
    hide Record, Next;
    RecordExactly(run, acts, i, id);
    if Lookup(run[i], id, kind) == Some(target) {
      assert Record(run, acts, i, id) == Some(Handle(kind, target, run[i].used[id].owner, false));
    }
  }
}
