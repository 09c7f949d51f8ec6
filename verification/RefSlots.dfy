/** The slots of a container as the code keeps them, and the map from keys to children they stand for. */
module RefSlots {
  import opened RefCounts

  predicate HasKey(slots: seq<Slot>, key: Key) {
    exists i :: 0 <= i < |slots| && slots[i].key == key
  }

  function FindKey(slots: seq<Slot>, key: Key): (i: nat)
    ensures i <= |slots| && (i < |slots| ==> slots[i].key == key)
    ensures i < |slots| <==> HasKey(slots, key)
  {
    if slots == [] then 0
    else if slots[0].key == key then assert HasKey(slots, key); 0
    else
      var rest := FindKey(slots[1..], key);
      assert HasKey(slots, key) <==> HasKey(slots[1..], key) by {
        if HasKey(slots[1..], key) {
          var j :| 0 <= j < |slots[1..]| && slots[1..][j].key == key;
          assert slots[j + 1].key == key;
        }
        if HasKey(slots, key) {
          var j :| 0 <= j < |slots| && slots[j].key == key;
          assert slots[1..][j - 1].key == key;
        }
      }
      rest + 1
  }

  function WithKey(slots: seq<Slot>, key: Key, val: Id): seq<Slot> {
    var i := FindKey(slots, key);
    if i < |slots| then slots[i := Slot(key, val)] else slots + [Slot(key, val)]
  }

  /** The child a key held so far. */
  function Replaced(slots: seq<Slot>, key: Key): seq<Id> {
    var i := FindKey(slots, key);
    if i < |slots| then [slots[i].child] else []
  }

  function Without(slots: seq<Slot>, index: nat): (r: seq<Slot>)
    requires index < |slots|
    ensures |r| == |slots| - 1 && forall i :: 0 <= i < |r| ==> r[i] == slots[if i < index then i else i + 1]
  {
    slots[..index] + slots[index + 1..]
  }

  // ---- Children ----

  lemma ReplacedChild(slots: seq<Slot>, i: nat, slot: Slot)
    requires i < |slots|
    ensures multiset(Children(slots[i := slot])) + multiset([slots[i].child]) == multiset(Children(slots)) + multiset{slot.child}
  {
    var kids := Children(slots);
    assert Children(slots[i := slot]) == kids[i := slot.child];
    assert kids == kids[..i] + [kids[i]] + kids[i + 1..];
    assert kids[i := slot.child] == kids[..i] + [slot.child] + kids[i + 1..];
  }

  lemma RemovedChild(slots: seq<Slot>, i: nat)
    requires i < |slots|
    ensures multiset(Children(Without(slots, i))) + multiset([slots[i].child]) == multiset(Children(slots))
    ensures forall m :: m in Children(Without(slots, i)) ==> m in Children(slots)
  {
    var kids := Children(slots);
    assert Children(Without(slots, i)) == kids[..i] + kids[i + 1..];
    assert kids == kids[..i] + [kids[i]] + kids[i + 1..];
  }

  lemma WithKeyChildren(slots: seq<Slot>, key: Key, val: Id)
    ensures multiset(Children(WithKey(slots, key, val))) + multiset(Replaced(slots, key)) == multiset(Children(slots)) + multiset{val}
  {
    var i := FindKey(slots, key);
    if i < |slots| {
      ReplacedChild(slots, i, Slot(key, val));
    } else {
      assert Children(slots + [Slot(key, val)]) == Children(slots) + [val];
    }
  }

  // ---- The map the slots stand for ----

  function AsMap(slots: seq<Slot>): map<Key, Id> {
    if slots == [] then map[] else AsMap(slots[1..])[slots[0].key := slots[0].child]
  }

  ghost predicate NoKeyTwice(slots: seq<Slot>) {
    forall i, j :: 0 <= i < j < |slots| ==> slots[i].key != slots[j].key
  }

  predicate FitsKind(kind: Kind, key: Key) {
    match kind
    case Leaf => false
    case Array => key.Elem?
    case Object => key.Name?
    case IntMap => key.Num?
  }

  /** Elements only in arrays, names only in objects, integers only in integer maps, and no key twice. */
  ghost predicate KeyedAs(kind: Kind, slots: seq<Slot>) {
    && (forall i :: 0 <= i < |slots| ==> FitsKind(kind, slots[i].key))
    && (kind != Array ==> NoKeyTwice(slots))
  }

  lemma {:induction false} InMap(slots: seq<Slot>, key: Key)
    ensures key in AsMap(slots) <==> HasKey(slots, key)
  {
    if slots != [] {
      InMap(slots[1..], key);
      var i := FindKey(slots, key);
      if i < |slots| && i > 0 { assert slots[1..][i - 1] == slots[i]; }
      if key in AsMap(slots[1..]) {
        var j :| 0 <= j < |slots[1..]| && slots[1..][j].key == key;
        assert slots[j + 1].key == key;
      }
    }
  }

  /** Each slot is what its key looks up. */
  lemma {:induction false} MapAt(slots: seq<Slot>, i: nat)
    requires NoKeyTwice(slots) && i < |slots|
    ensures slots[i].key in AsMap(slots) && AsMap(slots)[slots[i].key] == slots[i].child
  {
    if i > 0 {
      MapAt(slots[1..], i - 1);
    }
  }

  lemma WithKeyRest(slots: seq<Slot>, key: Key, val: Id)
    requires slots != []
    ensures var w := WithKey(slots, key, val);
            w != [] && w[0] == (if slots[0].key == key then Slot(key, val) else slots[0])
                    && w[1..] == (if slots[0].key == key then slots[1..] else WithKey(slots[1..], key, val))
  {
    var w, rest := WithKey(slots, key, val), slots[1..];
    if slots[0].key == key {
      assert FindKey(slots, key) == 0;
    } else {
      FindRest(slots, key);
      var k := FindKey(rest, key);
      if k < |rest| {
        assert w[1..] == rest[k := Slot(key, val)];
      } else {
        assert w[1..] == rest + [Slot(key, val)];
      }
    }
  }

  /** After an insertion the key looks up the new child and every other key what it did before. */
  lemma {:induction false} InsertedMap(slots: seq<Slot>, key: Key, val: Id)
    ensures AsMap(WithKey(slots, key, val)) == AsMap(slots)[key := val]
  {
    if slots == [] {
      assert WithKey(slots, key, val) == [Slot(key, val)];
    } else {
      hide WithKey, FindKey;
      WithKeyRest(slots, key, val);
      InsertedMap(slots[1..], key, val);
    }
  }

  lemma FindRest(slots: seq<Slot>, key: Key)
    requires slots != [] && slots[0].key != key
    ensures FindKey(slots, key) == FindKey(slots[1..], key) + 1
  {
  }

  lemma WithoutRest(slots: seq<Slot>, k: nat)
    requires k < |slots|
    ensures var w := Without(slots, k);
            if k == 0 then w == slots[1..] else w != [] && w[0] == slots[0] && w[1..] == Without(slots[1..], k - 1)
  {
  }

  /** After an erasure the key is gone and every other key looks up what it did before. */
  lemma {:induction false} ErasedMap(slots: seq<Slot>, key: Key)
    requires NoKeyTwice(slots) && HasKey(slots, key)
    ensures AsMap(Without(slots, FindKey(slots, key))) == AsMap(slots) - {key}
  {
    hide Without;
    var rest := slots[1..];
    WithoutRest(slots, FindKey(slots, key));
    if slots[0].key != key {
      FindRest(slots, key);
      ErasedMap(rest, key);
    } else {
      assert FindKey(slots, key) == 0;
      InMap(rest, key);
    }
  }

  lemma InsertedKeyed(kind: Kind, slots: seq<Slot>, key: Key, val: Id)
    requires KeyedAs(kind, slots) && FitsKind(kind, key)
    ensures kind != Array ==> KeyedAs(kind, WithKey(slots, key, val))
  {
    hide FindKey;
  }

  lemma ErasedKeyed(kind: Kind, slots: seq<Slot>, i: nat)
    requires KeyedAs(kind, slots) && i < |slots|
    ensures KeyedAs(kind, Without(slots, i))
  {
    hide FitsKind;
  }
}
