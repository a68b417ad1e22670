/**
 The reference-counted entry table behind the cluster state registry:
 a map from entry name to the number of times the entry has been added.
 This module holds the pure view of the table: what `add` and `remove`
 do to it, the invariant they keep, and a multiset reading of the table
 (an entry added n times and not yet removed occurs n times).
 */
module EntryTable {

  /** Entry name to add count, as the registry's private `data` map. */
  type Table = map<string, nat>

  /** How many times `name` is currently held; zero when it is not a key. */
  function Count(t: Table, name: string): nat
  {
    if name in t then t[name] else 0
  }

  /** The table invariant: no key is stored with a count of zero. */
  predicate AllPositive(t: Table)
  {
    forall k :: k in t ==> t[k] >= 1
  }

  /**
   The test `add` makes before it writes: the looked-up count is falsy,
   that is, the key is missing or (outside the invariant) stored as zero.
   */
  predicate IsFirstAdd(t: Table, name: string)
  {
    name !in t || t[name] == 0
  }

  /** The table after `add(name)`. */
  function Added(t: Table, name: string): (r: Table)
    ensures name in r && Count(r, name) == Count(t, name) + 1
    ensures IsFirstAdd(t, name) ==> r[name] == 1
    ensures !IsFirstAdd(t, name) ==> r[name] == t[name] + 1
    ensures r.Keys == t.Keys + {name}
    ensures forall k :: k != name && k in t ==> r[k] == t[k]
  {
    if IsFirstAdd(t, name) then t[name := 1] else t[name := t[name] + 1]
  }

  /** The events `add(name)` emits: the name once when it is a first add, nothing otherwise. */
  function AddEvents(t: Table, name: string): seq<string>
  {
    if IsFirstAdd(t, name) then [name] else []
  }

  /** The table after `remove(name)` on a present name. */
  function Removed(t: Table, name: string): (r: Table)
    requires name in t && t[name] >= 1
    ensures Count(r, name) == Count(t, name) - 1
    ensures t[name] == 1 ==> name !in r && r.Keys == t.Keys - {name}
    ensures t[name] > 1 ==> name in r && r.Keys == t.Keys
    ensures forall k :: k != name && k in t ==> k in r && r[k] == t[k]
    ensures forall k :: k in r ==> k in t
  {
    var current := t[name] - 1;
    if current == 0 then t - {name} else t[name := current]
  }

  /** Adding keeps the invariant. */
  lemma AddedKeepsPositive(t: Table, name: string)
    requires AllPositive(t)
    ensures AllPositive(Added(t, name))
  {
  }

  /** Removing a present name keeps the invariant: a count that reaches zero is deleted, not stored. */
  lemma RemovedKeepsPositive(t: Table, name: string)
    requires AllPositive(t) && name in t
    ensures AllPositive(Removed(t, name))
  {
  }

  /** On a table that keeps the invariant, a first add is exactly an add of an absent name. */
  lemma FirstAddIffAbsent(t: Table, name: string)
    requires AllPositive(t)
    ensures IsFirstAdd(t, name) <==> name !in t
  {
  }

  /** `add` followed by `remove` of the same name restores the table exactly. */
  lemma AddThenRemove(t: Table, name: string)
    requires AllPositive(t)
    ensures name in Added(t, name) && Added(t, name)[name] >= 1
    ensures Removed(Added(t, name), name) == t
  {
  }

  /** `remove` followed by `add` of a present name restores the table exactly. */
  lemma RemoveThenAdd(t: Table, name: string)
    requires AllPositive(t) && name in t
    ensures Added(Removed(t, name), name) == t
  {
  }

  /** Some key of a non-empty table; the same one every time for the same table. */
  ghost function PickKey(t: Table): (k: string)
    requires t != map[]
    ensures k in t
  {
    var k :| k in t; k
  }

  /** The table read as a multiset of names: each key occurs as many times as its count. */
  ghost function Bag(t: Table): multiset<string>
    decreases |t|
  {
    if t == map[] then multiset{}
    else
      var k := PickKey(t);
      assert |t - {k}| < |t| by { assert (t - {k}).Keys == t.Keys - {k}; }
      Bag(t - {k})[k := t[k]]
  }

  /** The multiplicity of a name in the multiset view is its count in the table. */
  lemma {:induction false} BagCount(t: Table, name: string)
    ensures Bag(t)[name] == Count(t, name)
    decreases |t|
  {
    if t != map[] {
      var k := PickKey(t);
      assert (t - {k}).Keys == t.Keys - {k};
      BagCount(t - {k}, name);
    }
  }

  /** In the multiset view, `add(name)` adds one occurrence of `name`. */
  lemma AddedBag(t: Table, name: string)
    ensures Bag(Added(t, name)) == Bag(t) + multiset{name}
  {
    forall k ensures Bag(Added(t, name))[k] == (Bag(t) + multiset{name})[k] {
      BagCount(Added(t, name), k);
      BagCount(t, k);
    }
  }

  /** In the multiset view, `remove(name)` of a present name takes away one occurrence of `name`. */
  lemma RemovedBag(t: Table, name: string)
    requires name in t && t[name] >= 1
    ensures name in Bag(t)
    ensures Bag(Removed(t, name)) == Bag(t) - multiset{name}
  {
    BagCount(t, name);
    forall k ensures Bag(Removed(t, name))[k] == (Bag(t) - multiset{name})[k] {
      BagCount(Removed(t, name), k);
      BagCount(t, k);
    }
  }

  /** Under the invariant, key membership (what `has` answers) is membership in the multiset view. */
  lemma {:induction false} KeyIffInBag(t: Table, name: string)
    requires AllPositive(t)
    ensures name in t <==> name in Bag(t)
  {
    BagCount(t, name);
  }

  /** `getAll` as written: `Object.keys` of a `Map` object lists none of the map's entries. */
  function GetAllAsWritten(t: Table): (names: seq<string>)
    ensures |names| == 0
  {
    []
  }

  /** A table holding an entry for which `getAll` as written returns nothing. */
  lemma GetAllAsWrittenOmitsEntries()
    ensures "topic" in Added(map[], "topic")
    ensures "topic" !in GetAllAsWritten(Added(map[], "topic"))
  {
  }
}
