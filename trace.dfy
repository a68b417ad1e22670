/**
 Sequences of `add` and `remove` calls on one registry, replayed over the
 entry table: what the table and the `'add'` event stream look like after
 any run in which every `remove` names a present entry.
 */
module RegistryTrace {
  import opened EntryTable

  /** One call on the registry's public API that changes the table. */
  datatype Call = Add(name: string) | Remove(name: string)

  /** Whether `c` may be made on `t`: a `remove` needs its name present. */
  predicate Allowed(t: Table, c: Call)
  {
    c.Remove? ==> c.name in t && t[c.name] >= 1
  }

  /** The table after one call. */
  function Step(t: Table, c: Call): Table
    requires Allowed(t, c)
  {
    match c
    case Add(n) => Added(t, n)
    case Remove(n) => Removed(t, n)
  }

  /** The `'add'` events one call emits; `remove` emits none. */
  function StepEvents(t: Table, c: Call): seq<string>
  {
    match c
    case Add(n) => AddEvents(t, n)
    case Remove(_) => []
  }

  /** Every call of the run is allowed on the table it meets. */
  predicate Enabled(t: Table, calls: seq<Call>)
    decreases |calls|
  {
    calls == [] || (Allowed(t, calls[0]) && Enabled(Step(t, calls[0]), calls[1..]))
  }

  /** The table after the whole run. */
  function Replay(t: Table, calls: seq<Call>): Table
    requires Enabled(t, calls)
    decreases |calls|
  {
    if calls == [] then t else Replay(Step(t, calls[0]), calls[1..])
  }

  /** The `'add'` events the whole run emits, in order. */
  function Events(t: Table, calls: seq<Call>): seq<string>
    requires Enabled(t, calls)
    decreases |calls|
  {
    if calls == [] then [] else StepEvents(t, calls[0]) + Events(Step(t, calls[0]), calls[1..])
  }

  /** The names the run adds, with repetition. */
  function AddedNames(calls: seq<Call>): multiset<string>
  {
    if calls == [] then multiset{}
    else (if calls[0].Add? then multiset{calls[0].name} else multiset{}) + AddedNames(calls[1..])
  }

  /** The names the run removes, with repetition. */
  function RemovedNames(calls: seq<Call>): multiset<string>
  {
    if calls == [] then multiset{}
    else (if calls[0].Remove? then multiset{calls[0].name} else multiset{}) + RemovedNames(calls[1..])
  }

  /** How many calls of the run take `n` from absent to present. */
  function Rises(t: Table, calls: seq<Call>, n: string): nat
    requires Enabled(t, calls)
    decreases |calls|
  {
    if calls == [] then 0
    else
      var t' := Step(t, calls[0]);
      (if n !in t && n in t' then 1 else 0) + Rises(t', calls[1..], n)
  }

  /** Every run keeps the invariant that no key maps to zero. */
  lemma {:induction false} ReplayKeepsPositive(t: Table, calls: seq<Call>)
    requires AllPositive(t) && Enabled(t, calls)
    ensures AllPositive(Replay(t, calls))
    decreases |calls|
  {
    if calls != [] {
      match calls[0] {
        case Add(n) => AddedKeepsPositive(t, n);
        case Remove(n) => RemovedKeepsPositive(t, n);
      }
      ReplayKeepsPositive(Step(t, calls[0]), calls[1..]);
    }
  }

  /**
   Reference counting: the final multiset of held names plus everything the
   run removed equals the initial multiset plus everything the run added.
   */
  lemma {:induction false} ReplayBag(t: Table, calls: seq<Call>)
    requires Enabled(t, calls)
    ensures Bag(Replay(t, calls)) + RemovedNames(calls) == Bag(t) + AddedNames(calls)
    decreases |calls|
  {
    if calls != [] {
      var c, rest := calls[0], calls[1..];
      ReplayBag(Step(t, c), rest);
      match c {
        case Add(n) =>
          AddedBag(t, n);
          assert AddedNames(calls) == multiset{n} + AddedNames(rest);
          assert RemovedNames(calls) == RemovedNames(rest);
        case Remove(n) =>
          RemovedBag(t, n);
          assert AddedNames(calls) == AddedNames(rest);
          assert RemovedNames(calls) == multiset{n} + RemovedNames(rest);
      }
    }
  }

  /** A run with no `remove(n)` holds `n` at the end exactly when `n` was held or the run adds it. */
  lemma {:induction false} ReplayHolds(t: Table, calls: seq<Call>, n: string)
    requires AllPositive(t) && Enabled(t, calls)
    requires Remove(n) !in calls
    ensures n in Replay(t, calls) <==> n in t || Add(n) in calls
    decreases |calls|
  {
    if calls != [] {
      var c, rest := calls[0], calls[1..];
      assert Remove(n) !in rest by { assert forall x :: x in rest ==> x in calls; }
      assert Add(n) in calls <==> c == Add(n) || Add(n) in rest;
      ReplayHolds(Step(t, c), rest, n);
    }
  }

  /**
   The `'add'` event for `n` fires once per absence-to-presence change: in a
   run that never removes `n`, it fires exactly once if `n` was absent and the
   run adds it, and never otherwise, however often `n` is added.
   */
  lemma {:induction false} AddEventOnce(t: Table, calls: seq<Call>, n: string)
    requires AllPositive(t) && Enabled(t, calls)
    requires Remove(n) !in calls
    ensures multiset(Events(t, calls))[n] == if n !in t && Add(n) in calls then 1 else 0
    decreases |calls|
  {
    if calls != [] {
      var c, rest := calls[0], calls[1..];
      var t' := Step(t, c);
      assert Remove(n) !in rest by { assert forall x :: x in rest ==> x in calls; }
      assert Add(n) in calls <==> c == Add(n) || Add(n) in rest;
      AddEventOnce(t', rest, n);
      assert multiset(Events(t, calls)) == multiset(StepEvents(t, c)) + multiset(Events(t', rest));
      if c == Add(n) {
        assert n in t';
      } else {
        assert multiset(StepEvents(t, c))[n] == 0;
        assert n in t' <==> n in t;
      }
    }
  }

  /**
   The `'add'` event for `n` fires once per absence-to-presence change of
   `n`, in any run: the number of events naming `n` is the number of calls
   that take `n` from absent to present.
   */
  lemma {:induction false} AddEventPerRise(t: Table, calls: seq<Call>, n: string)
    requires AllPositive(t) && Enabled(t, calls)
    ensures multiset(Events(t, calls))[n] == Rises(t, calls, n)
    decreases |calls|
  {
    if calls != [] {
      var c, rest := calls[0], calls[1..];
      var t' := Step(t, c);
      AddEventPerRise(t', rest, n);
      assert multiset(Events(t, calls)) == multiset(StepEvents(t, c)) + multiset(Events(t', rest));
      assert multiset(StepEvents(t, c))[n] == if n !in t && n in t' then 1 else 0;
    }
  }
}
