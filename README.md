# Cluster state registry: reference-counted entry table

This project models `StateRegistry` from deepstream.io's cluster layer
(`src/cluster/state-registry.ts`). The registry keeps a private map from entry
name to a count of how many times the entry has been added. `add` creates an
absent entry with count 1 and emits an `'add'` event; on a present entry it
only raises the count. `remove` lowers the count and deletes the entry when the
count reaches zero. `has` answers key membership, and `getAllMap` hands out
the map.

The project has three modules:

- `EntryTable` (`entry_table.dfy`) is the pure view of the table. It holds
  `Added` and `Removed`, which give the table after `add` and `remove`, and
  `AddEvents`, which gives the events `add` emits. It also holds the invariant
  `AllPositive` (no key maps to zero) and a multiset reading of the table,
  `Bag`, in which an entry occurs as many times as its count. Lemmas tie
  `add`/`remove` to multiset insertion/deletion and prove that they undo
  each other.
- `RegistryTrace` (`trace.dfy`) replays any sequence of `add`/`remove` calls in
  which every `remove` names a present entry. It proves that the invariant
  holds throughout and that reference counting balances. It also proves, for
  any run, that the number of `'add'` events naming an entry equals the number
  of calls that take it from absent to present.
- `Cluster` (`state_registry.dfy`) is the class `StateRegistry`. It has the
  `data` map as a field and the emitted `'add'` events as a ghost log.
  `Add` and `Remove` update the map in place. Each one's contract states the
  new map through `Added`/`Removed`, the new event log, and the effect on the
  multiset view.

## Model

| member | source | states |
|---|---|---|
| `EntryTable.Added` | src/cluster/state-registry.ts:43-51 | after `add`, the name is a key and its count is one more than before: 1 when the looked-up count was missing or zero, the old count plus one otherwise; the key set gains only the name; every other key keeps its count |
| `EntryTable.Removed` | src/cluster/state-registry.ts:62-69 | on a present name, `remove` lowers the count by one; a count of 1 deletes the key and a larger count keeps it; every other key keeps its count and no key is created |
| `EntryTable.AddedKeepsPositive` | src/cluster/state-registry.ts:45-50 | `add` keeps the invariant that every stored count is at least 1 |
| `EntryTable.RemovedKeepsPositive` | src/cluster/state-registry.ts:63-68 | `remove` of a present name keeps that invariant, because a count that reaches 0 is deleted rather than stored |
| `EntryTable.FirstAddIffAbsent` | src/cluster/state-registry.ts:44-45 | under the invariant, the falsy-count test in `add` holds exactly when the name is not a key |
| `EntryTable.AddThenRemove` | src/cluster/state-registry.ts:43-69 | `add(name)` followed by `remove(name)` restores the table exactly |
| `EntryTable.RemoveThenAdd` | src/cluster/state-registry.ts:43-69 | `remove(name)` of a present name followed by `add(name)` restores the table exactly |
| `EntryTable.BagCount` | src/cluster/state-registry.ts:18 | an entry's multiplicity in the multiset view equals its count in the table (0 when absent) |
| `EntryTable.AddedBag` | src/cluster/state-registry.ts:43-51 | in the multiset view, `add(name)` inserts one occurrence of the name |
| `EntryTable.RemovedBag` | src/cluster/state-registry.ts:62-69 | in the multiset view, `remove(name)` of a present name deletes one occurrence of the name |
| `EntryTable.KeyIffInBag` | src/cluster/state-registry.ts:35-37 | under the invariant, being a key (what `has` answers) is the same as occurring in the multiset view |
| `EntryTable.GetAllAsWritten` | src/cluster/state-registry.ts:91-93 | `getAll` as written returns an empty list whatever the table holds |
| `EntryTable.GetAllAsWrittenOmitsEntries` | src/cluster/state-registry.ts:85-93 | a table holding `"topic"` for which `getAll` as written does not list `"topic"` |
| `RegistryTrace.ReplayKeepsPositive` | src/cluster/state-registry.ts:43-69 | after any run of `add`/`remove` calls whose removes name present entries, no key maps to 0 |
| `RegistryTrace.ReplayBag` | src/cluster/state-registry.ts:43-69 | after any such run, the final multiset plus the removed names equals the initial multiset plus the added names |
| `RegistryTrace.ReplayHolds` | src/cluster/state-registry.ts:43-69 | a run that never removes `n` ends with `n` present exactly when `n` was present or the run adds it |
| `RegistryTrace.AddEventOnce` | src/cluster/state-registry.ts:43-51 | in a run that never removes `n`, the `'add'` event for `n` fires exactly once if `n` was absent and is added, and never otherwise, however many times `n` is added |
| `RegistryTrace.AddEventPerRise` | src/cluster/state-registry.ts:43-69 | in any run of `add`/`remove` calls whose removes name present entries, the number of `'add'` events naming `n` equals the number of calls that take `n` from absent to present, so `add n, remove n, add n` emits two |
| `Cluster.StateRegistry.constructor` | src/cluster/state-registry.ts:18-27 | a new registry has an empty table and an empty event log |
| `Cluster.StateRegistry.Has` | src/cluster/state-registry.ts:35-37 | returns true exactly when the name is a key of `data`; under the invariant, exactly when it occurs in the multiset view |
| `Cluster.StateRegistry.Add` | src/cluster/state-registry.ts:43-51 | new `data` is `Added(old data)`. An absent name gets count 1 and one `'add'` event. A present name gets its count raised by exactly 1 and no event. Other keys keep their counts. The invariant is preserved, and the multiset view gains one occurrence |
| `Cluster.StateRegistry.Remove` | src/cluster/state-registry.ts:62-69 | new `data` is `Removed(old data)`. A count of 1 deletes the key. A larger count is lowered by exactly 1 and the key stays. Other keys keep their counts. The invariant is preserved, the multiset view loses one occurrence, and no event is emitted |
| `Cluster.StateRegistry.GetAllMap` | src/cluster/state-registry.ts:95-97 | returns the table, whose counts are all positive under the invariant and equal the multiplicities of the multiset view |
| `Cluster.StateRegistry.GetAll` | src/cluster/state-registry.ts:85-93 | corrected `getAll`: lists every key of `data` exactly once and nothing else |

## Left out

- The `EventEmitter` base class and the `emit('add', name)` call (lines 1, 15, 24, 47) are modelled only as the ghost log `events`. Listener registration and delivery are not modelled.
- EntryTable.Added: counts are unbounded `nat` here, but the source stores them as JavaScript numbers, which are IEEE doubles (line 18). At a count of 2^53, `current + 1` (line 49) rounds back to 2^53, so the count stops rising. The exact +1 holds only below 2^53, and so does `EntryTable.AddThenRemove`.
- Cluster.StateRegistry.Add: the exact +1 on a present name holds only for counts below 2^53, as for `EntryTable.Added`. Also, `emit` (line 47) runs listeners synchronously inside `add`. The contract `data == Added(old(data), name)` assumes no listener calls back into the registry during that `emit`.
- Cluster.StateRegistry.Remove: requires the name to be present. On an absent name, line 63 computes `undefined - 1`, which is `NaN`. `NaN` is never `=== 0`, so line 67 stores `NaN` under the name. This contradicts the comment at lines 54-55, which says `remove` exits silently. JavaScript `NaN` arithmetic is not modelled.
- Cluster.StateRegistry.Remove: emits no `'remove'` event, following the code. The comment at line 11 promises one on last removal.
- Cluster.StateRegistry.GetAllMap: returns the table as a value. In the source it returns the live `Map` object, so a caller's later mutations would alias the registry's state. That aliasing is not modelled.
- `whenReady`, `removeAll` and `getAllServers` (lines 29-30, 75-76, 81-83) are empty stubs: a no-op, a no-op and `return []`. Nothing there can be verified.
- The constructor's `topic` and `options` (lines 16-17, 23-27) are stored and never read. The cluster transport they name is not part of this model.
- The source has no replication, per-server owner sets, reverse index, wire messages or join handshake. None is modelled.

## Findings

| source | as written | input that shows it | evidently intended | confidence | as-written member | corrected member |
|---|---|---|---|---|---|---|
| src/cluster/state-registry.ts:91-93 | `getAll` returns `Object.keys(this.data)`. On a `Map` this lists no entries, so the result is always empty | `add("topic")` then `getAll()` gives `[]` | every registered entry name, each once (doc comment at lines 85-89) | high, not executed | `EntryTable.GetAllAsWritten`, `EntryTable.GetAllAsWrittenOmitsEntries` | `Cluster.StateRegistry.GetAll` |
