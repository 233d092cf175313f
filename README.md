# sync.Map, modelled sequentially

A Dafny model of Go's `sync.Map` (`go/src/sync/map.go`) with one caller at a
time. It proves that the map's internal bookkeeping holds after every
operation. It also proves that the public operations behave as plain
finite-map operations on the map's abstract contents.

## The model

- **Entry slot** (`entry.dfy`, module `Entries`). An `entry` is a slot shared
  by reference between the read snapshot and the dirty map. Its pointer `p` is
  nil, the `expunged` sentinel, or a boxed value. Here it is a class `Entry`
  whose field `st` is an `EntryState`: `Absent`, `Expunged` or `Present(v)`.
  - Each entry helper (`tryStore`, `unexpungeLocked`, `storeLocked`,
    `tryLoadOrStore`, `delete`, `tryExpungeLocked`) is a method that updates
    `st` in one step.
  - `entry.load` is a pure read of the slot.
- **Abstract view** (`view.dfy`, module `Views`). These are value-level
  functions over entry *states*:
  - `Locate`/`Get` say what `Load` finds for a key: the read snapshot first,
    then the dirty map when one exists.
  - `View` is the abstract map: the keys for which `Get` finds a value.
  - `Coherent` is the agreement between the read snapshot and the dirty map.
  - The lemmas about promotion and the dirty copy are stated on these values.
- **Map** (`syncmap.dfy`, module `SyncMaps`).
  - Class `Map` has the fields `read` (a `ReadOnly` snapshot: key-to-entry map
    and `amended` flag), `dirty` (`Option` of a key-to-entry map; `None` is
    Go's nil map) and `misses`.
  - `Repr()` is the set of entries the two maps point to.
  - `Contents()` is the abstract map.
  - `Valid()` is the representation invariant:
    - distinct keys own distinct entries;
    - an existing dirty map holds no expunged entry, and holds every
      non-expunged read entry (the same object under the same key);
    - an expunged read key is not in the dirty map;
    - while the dirty map is nil, no read entry is expunged and `misses` is 0
      (together, the items so far are the predicate `Bookkeeping`);
    - `amended` holds exactly when a dirty map exists.
  - Every public method keeps `Valid()`. Its effect on `Contents()` is stated
    as a finite-map operation.
  - Each step that changes the heap is followed by a two-state lemma (e.g.
    `Rewritten`, `Revived`, `Inserted`). Such a lemma relates the Map before
    the step to the Map after it.
  - Go's `Store` and `LoadOrStore` each hold two phases in one function: a
    lock-free attempt, then the locked slow path. Here the locked part is a
    separate method (`SlowStoreLocked`, `SlowLoadOrStoreLocked`), with
    branches `ReviveLocked`, `AddLocked`, `LoadOrStoreSnapshotLocked`,
    `LoadOrStoreDirtyLocked` and `LoadOrStoreEntry`.
- **Clients** (`clients.dfy`). These are properties across several calls,
  proved from the method contracts alone.

### The `amended` flag

The comment at `go/src/sync/map.go:65` says `amended` is true when the dirty
map holds a key that is not in the read snapshot. The code does not keep that
promise: `Delete` (`map.go:320`) can remove the only such key and leave
`amended` true.

The model follows the code. The invariant it proves is `amended == (dirty is
not nil)`. This is what the updates at `map.go:191-194`, `372-375` and
`404-409` maintain.

## Model

| member | source | states |
|---|---|---|
| Entries.Value | go/src/sync/map.go:141-153 | `entry.load` finds a value exactly when the slot is present, and then finds the value the slot holds; absent and expunged both report not found |
| Entries.Entry.constructor | go/src/sync/map.go:95-97 | `newEntry(v)` makes a slot present with `v` |
| Entries.Entry.TryStore | go/src/sync/map.go:204-221 | on an expunged slot: fails and leaves the slot unchanged; otherwise: succeeds and the slot becomes present with the new value |
| Entries.Entry.UnexpungeLocked | go/src/sync/map.go:223-229 | reports whether the slot was expunged; an expunged slot becomes absent, any other slot is unchanged |
| Entries.Entry.StoreLocked | go/src/sync/map.go:231-236 | on a slot known not to be expunged, stores the value unconditionally |
| Entries.Entry.TryLoadOrStore | go/src/sync/map.go:276-306 | expunged: ok false, no result, slot unchanged; present: returns its value with loaded true and no change; absent: stores the value and returns it with loaded false |
| Entries.Entry.Delete | go/src/sync/map.go:330-342 | reports true exactly when the slot was present, and then makes it absent; absent and expunged slots are left unchanged |
| Entries.Entry.TryExpungeLocked | go/src/sync/map.go:429-438 | an absent slot becomes expunged, any other slot is unchanged; the result is true exactly when the slot held no value |
| Views.View | go/src/sync/map.go:102-138 | definition (the abstraction function every mutator is proved against): the abstract map holds a key exactly when `Load` would find a value for it, and maps it to that value |
| Views.ViewFrame | go/src/sync/map.go:102-138 | if the lookups agree on every key but one, the abstract maps differ only at that key |
| Views.SameGetSameView | go/src/sync/map.go:102-138 | if the lookups agree on every key, the abstract maps are equal |
| Views.PromoteKeepsView | go/src/sync/map.go:404-409 | installing a coherent dirty map as the read snapshot, with no dirty map left, keeps the abstract map |
| Views.ExpungeAbsent | go/src/sync/map.go:421-426 | definition, used by `DirtyCopyKeepsView` and `Copied`: the read states after `dirtyLocked`: the same keys, with every absent slot now expunged |
| Views.LiveCopy | go/src/sync/map.go:421-426 | definition, used by `DirtyCopyKeepsView` and `Copied`: the dirty map `dirtyLocked` builds: exactly the read keys whose slot is present, sharing their slots |
| Views.DirtyCopyKeepsView | go/src/sync/map.go:412-427 | from a snapshot with no expunged slot, `dirtyLocked` yields a coherent pair with the same abstract map |
| SyncMaps.FindAbstract | go/src/sync/map.go:102-138 | the entry `Load` reaches for a key reports what the abstract map holds for it; no entry means the key is absent |
| SyncMaps.FindInjective | go/src/sync/map.go:76-91 | under the invariant, two keys whose lookup reaches the same entry are the same key |
| SyncMaps.Promote | go/src/sync/map.go:404-409 | promotion keeps the invariant (no dirty map, no misses) and the abstract map |
| SyncMaps.InsertNew | go/src/sync/map.go:199 | `m.dirty[key] = newEntry(value)` for a key in neither map keeps the invariant and adds the key with its value |
| SyncMaps.RemoveDirtyOnly | go/src/sync/map.go:318-321 | `delete(m.dirty, key)` for a key not in the read snapshot keeps the invariant and removes the key from the abstract map |
| SyncMaps.Visit | go/src/sync/map.go:381-389 | calls `f` only on keys whose entry is present, passing the value it holds, each key at most once; it stops right after the first call that returns false; if no call returned false, every present key was visited |
| SyncMaps.Map.constructor | go/src/sync/map.go:26-60 | the zero Map: valid, empty, no dirty map, no misses |
| SyncMaps.Map.Load | go/src/sync/map.go:102-138 | returns the value the abstract map holds for the key, or not found; the contents stay the same; a miss is counted (and may promote) only when the key is not in an amended read snapshot |
| SyncMaps.Map.Store | go/src/sync/map.go:155-202 | afterwards the key maps to the value and every other key is as before; the invariant holds; no miss is counted and the snapshot's map is kept; a key in the snapshot leaves the snapshot as it was, and a key outside it leaves a dirty map holding the key with the snapshot amended; the new dirty map: for a snapshot key, unchanged, or gaining exactly the key with its revived entry when that entry was expunged; for a key only in the dirty map, unchanged; for a key in neither map, the old dirty map's keys plus the key, or, when there was no dirty map, exactly the snapshot keys whose entry held a value plus the key (the shallow copy of map.go:49-50, 56-58) |
| SyncMaps.Map.SlowStoreLocked | go/src/sync/map.go:165-201 | the locked path of Store alone gives the same contents, bookkeeping and new dirty map as Store |
| SyncMaps.Map.LoadOrStore | go/src/sync/map.go:238-274 | a present key: returns its value with loaded true and the contents are unchanged; an absent key: returns the given value with loaded false and stores it; a key in the snapshot keeps snapshot and miss count, and the dirty map gains exactly the key when its entry was revived, else is unchanged; a key in neither map keeps the snapshot's map and miss count and leaves a dirty map, amended, whose keys are the old dirty map's plus the key, or the snapshot keys holding a value plus the key when there was none; a key found only in the dirty map counts a miss, promoting the dirty map once the misses reach its size |
| SyncMaps.Map.SlowLoadOrStoreLocked | go/src/sync/map.go:251-271 | the locked path of LoadOrStore alone gives the same results, bookkeeping and new dirty map as LoadOrStore |
| SyncMaps.Map.LoadOrStoreSnapshotLocked | go/src/sync/map.go:253-257 | the snapshot-hit branch: LoadOrStore's results on the contents; the snapshot and miss count are kept; the dirty map gains exactly the key with its entry when the entry was expunged, and is unchanged otherwise |
| SyncMaps.Map.LoadOrStoreDirtyLocked | go/src/sync/map.go:258-260 | the dirty-only branch: LoadOrStore's results on the contents, then one miss: counted while `misses + 1 < len(dirty)`, otherwise the dirty map is promoted (snapshot = old dirty map, unamended, no dirty map, no misses) |
| SyncMaps.Map.LoadOrStoreEntry | go/src/sync/map.go:253-260 | `tryLoadOrStore` on the non-expunged entry that lookup reaches for the key: the same result as LoadOrStore, and the set of entries is unchanged |
| SyncMaps.Map.Delete | go/src/sync/map.go:308-328 | afterwards the key is absent and every other key is as before; a key that was absent changes nothing; the snapshot (so `amended` too) and the miss count are unchanged; the dirty map loses the key only when the snapshot lacks it and is amended, and is otherwise unchanged |
| SyncMaps.Map.Range | go/src/sync/map.go:344-390 | when amended, promotes: the read snapshot becomes the old dirty map; otherwise the snapshot is left as it was; either way `amended` is false, there is no dirty map and no misses, and the contents are unchanged; calls `f` only on present keys with their values, each at most once; stops right after the first false; visits every key when no call returned false |
| SyncMaps.Map.ReviveLocked | go/src/sync/map.go:173-177 | an expunged read entry becomes absent and the dirty map gains exactly `key` mapped to it; any other entry leaves the slot and the dirty map as they were; the snapshot, the miss count, the contents and the invariant are kept |
| SyncMaps.Map.AddLocked | go/src/sync/map.go:184-200 | makes sure a dirty map exists and the snapshot is marked amended, then adds a fresh entry; the key now maps to the value; the snapshot's map and the miss count are kept; the new dirty map is the old one plus the key, or, when there was none, holds exactly the snapshot keys whose entry held a value (each with the snapshot's entry) plus the key |
| SyncMaps.Map.MissLocked | go/src/sync/map.go:392-410 | counts a miss while `misses + 1 < len(dirty)`; otherwise promotes the dirty map (read snapshot = dirty, `amended` false, no dirty map, `misses` 0); the contents stay the same when a dirty map exists |
| SyncMaps.Map.DirtyLocked | go/src/sync/map.go:412-427 | a no-op when a dirty map exists; otherwise every absent read slot becomes expunged, and the new dirty map holds exactly the read keys whose slot held a value, sharing the slots; contents unchanged |
| SyncMaps.EntriesKept | go/src/sync/map.go:393-398 | a step that only counted a miss keeps the invariant and the contents |
| SyncMaps.Promoted | go/src/sync/map.go:404-409 | the promotion step keeps the invariant and, when a dirty map existed, the contents |
| SyncMaps.Rewritten | go/src/sync/map.go:160-182 | a step that changed one entry without expunging or unexpunging it changes the contents at its key only, to what the entry now holds (the entry updates at map.go:160, 179, 182, 245-247, 257-259 and 326) |
| SyncMaps.Revived | go/src/sync/map.go:174-177 | unexpunging a read entry and putting it back into the dirty map keeps the invariant and the contents |
| SyncMaps.Amended | go/src/sync/map.go:191-194 | marking the snapshot amended right after `dirtyLocked` restores the full invariant |
| SyncMaps.Inserted | go/src/sync/map.go:199 | adding a fresh entry to the dirty map under a new key keeps the invariant and adds the key |
| SyncMaps.RemovedFromDirty | go/src/sync/map.go:318-321 | deleting a key that is in the dirty map only keeps the invariant and removes the key |
| SyncMaps.Copied | go/src/sync/map.go:418-426 | the dirty copy keeps the bookkeeping (`amended` aside) and the contents |
| Clients.StoreThenLoad | go/src/sync/map.go:155-202 | after `Store(k, v)`, `Load(k)` finds `v` and `Load` of any other key finds what it found before |
| Clients.DeleteThenLoad | go/src/sync/map.go:308-328 | after `Delete(k)`, `Load(k)` finds nothing |
| Clients.LoadOrStoreTwice | go/src/sync/map.go:238-274 | a second `LoadOrStore` of the same key loads what the first left there, whatever value it offers |
| Clients.StoreThenDelete | go/src/sync/map.go:155-202 | `Store` then `Delete` of a key leaves the key absent and every other key as before |
| Clients.PromoteThenRecopy | go/src/sync/map.go:53-58 | from a zero Map: Store(k1), Load(k1), Store(k2) finds k1's value; the one miss promotes the one-entry dirty map, and the second Store then leaves k1 in the snapshot and both keys in a new dirty map, amended, with no misses |
| Clients.FirstLoadPromotes | go/src/sync/map.go:53-58 | the first Load after the first Store into a zero Map finds the value and promotes: the snapshot holds the key, no dirty map, no misses |
| Clients.RecopyAfterPromotion | go/src/sync/map.go:49-50 | the first Store of a new key after a promotion copies the promoted key into the new dirty map beside the new key, and marks the snapshot amended |

## Left out

- The mutex and the double-checked re-reads under it (`map.go:109-118`, `165-167`, `251-252`, `313-316`, `367-370`). With one caller at a time the re-read sees what the first read saw, so each lookup is modelled once. Race freedom and happens-before ordering are not modelled.
- Atomic loads and stores and the compare-and-swap retry loops (`atomic.Value` for `read`, `atomic.*Pointer` on `entry.p`). Each entry helper is one state update, as if every compare-and-swap succeeds at its first attempt.
- `unsafe.Pointer`, the process-wide `expunged` sentinel and `interface{}` boxing. These are replaced by `EntryState` and the type parameters `K` and `V`. Keys are compared with Dafny equality. Go's panic on an incomparable key is not modelled.
- Concurrent or re-entrant use of the map from inside the `Range` callback. `f` is a pure function of key and value, so a callback that stores into or deletes from the map is not modelled, and neither is one whose answer depends on its earlier calls (such as one that stops after n entries).
- Go's unspecified map iteration order: `Range` and `dirtyLocked` pick the next key with `:|`, so every order is covered and none is fixed.
- The `make(map…, len(read.m))` capacity hint in `dirtyLocked` has no counterpart.
- `example/sync/map_exmaple.go` (a `main` driver that prints) is not part of this model.
- SyncMaps.Map.MissLocked: keeps the contents only when a dirty map exists. With a nil dirty map it would install an empty read snapshot. The code never calls it then, and the contract states just that case split rather than requiring a dirty map.
- `misses` is an unbounded natural number; Go's `int` overflow is not modelled.
