/**
 The cluster state registry: a table of named entries, each with a count of
 how many times it has been added, that emits an `'add'` event when an entry
 is added for the first time. The event emitter is modelled by the ghost log
 `events` of the names passed with each `'add'` event.
 */
module Cluster {
  import opened EntryTable

  class StateRegistry {
    /** Entry name to the number of times it has been added and not removed. */
    var data: Table
    /** The names emitted with the `'add'` event, oldest first. */
    ghost var events: seq<string>

    /** No entry is stored with a count of zero. */
    ghost predicate Valid()
      reads this
    {
      AllPositive(data)
    }

    /** The held entries as a multiset: an entry added n times and not removed occurs n times. */
    ghost function Contents(): multiset<string>
      reads this
    {
      Bag(data)
    }

    /** A registry starts with no entries and has emitted nothing. */
    constructor ()
      ensures Valid()
      ensures data == map[] && events == []
      ensures Contents() == multiset{}
    {
      data := map[];
      events := [];
    }

    /** Whether an entry exists within the registry. */
    method Has(name: string) returns (present: bool)
      ensures present <==> name in data
      ensures Valid() ==> (present <==> name in Contents())
    {
      present := name in data;
      if Valid() {
        KeyIffInBag(data, name);
      }
    }

    /**
     Adds one to the count of `name`. An entry whose looked-up count is
     missing (or zero) is stored with count 1 and announced with an `'add'`
     event; any other entry only has its count raised.
     */
    method Add(name: string)
      modifies this
      ensures data == Added(old(data), name)
      ensures events == old(events) + AddEvents(old(data), name)
      ensures old(name !in data) ==> data[name] == 1 && events == old(events) + [name]
      ensures old(name in data && data[name] >= 1) ==>
                data[name] == old(data[name]) + 1 && events == old(events)
      ensures forall k :: k != name && k in old(data) ==> k in data && data[k] == old(data[k])
      ensures data.Keys == old(data.Keys) + {name}
      ensures old(Valid()) ==> Valid() && Contents() == old(Contents()) + multiset{name}
    {
      // A missing key reads as `undefined`, which is falsy like 0.
      var current := if name in data then data[name] else 0;
      if current == 0 {
        data := data[name := 1];
        events := events + [name];
      } else {
        data := data[name := current + 1];
      }
      AddedBag(old(data), name);
    }

    /**
     Takes one from the count of a present entry and deletes the entry when
     its count reaches zero. No event is emitted.
     */
    method Remove(name: string)
      requires Valid() && name in data
      modifies this
      ensures Valid()
      ensures data == Removed(old(data), name)
      ensures old(data[name]) == 1 ==> name !in data && data.Keys == old(data.Keys) - {name}
      ensures old(data[name]) > 1 ==> name in data && data[name] == old(data[name]) - 1
      ensures forall k :: k != name && k in old(data) ==> k in data && data[k] == old(data[k])
      ensures Contents() == old(Contents()) - multiset{name}
      ensures events == old(events)
    {
      var current := data[name] - 1;
      if current == 0 {
        data := data - {name};
      } else {
        data := data[name := current];
      }
      RemovedBag(old(data), name);
    }

    /** The table itself, whose counts are the multiplicities of the held entries. */
    method GetAllMap() returns (m: Table)
      ensures m == data
      ensures Valid() ==> AllPositive(m) && forall k :: Contents()[k] == Count(m, k)
    {
      m := data;
      forall k ensures Contents()[k] == Count(m, k) {
        BagCount(data, k);
      }
    }

    /** The names of all currently registered entries, each once, in no particular order. */
    method GetAll() returns (names: seq<string>)
      ensures forall k :: k in names <==> k in data
      ensures forall i, j :: 0 <= i < j < |names| ==> names[i] != names[j]
      ensures |names| == |data|
    {
      names := [];
      var rest := data.Keys;
      while rest != {}
        invariant rest <= data.Keys
        invariant forall k :: k in names <==> k in data && k !in rest
        invariant forall i, j :: 0 <= i < j < |names| ==> names[i] != names[j]
        invariant |names| + |rest| == |data.Keys|
        decreases |rest|
      {
        var k :| k in rest;
        names := names + [k];
        rest := rest - {k};
      }
    }
  }
}
