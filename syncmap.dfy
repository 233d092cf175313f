/**
 * sync.Map (go/src/sync/map.go), run sequentially.
 *
 * A Map holds an immutable read snapshot (`read`: a key-to-entry map and the
 * `amended` flag), an optional dirty map that is changed in place, and a miss
 * counter. Entries are objects shared by reference between the two maps, so a
 * store through one map is seen through the other. The mutex, the atomic
 * loads and stores of `read` and the double-checked re-reads under the lock
 * are left out: with one caller at a time the re-read sees what the first
 * read saw.
 */
module SyncMaps {
  import opened Wrappers
  import opened Entries
  import Views

  /** readOnly: the snapshot swapped as a whole into Map.read. */
  datatype ReadOnly<K, V> = ReadOnly(m: map<K, Entry<V>>, amended: bool)

  ghost function DirtyEntries<K, V>(dirty: Option<map<K, Entry<V>>>): set<Entry<V>>
  {
    if dirty.Some? then dirty.value.Values else {}
  }

  /** Every entry the read snapshot or the dirty map points to. */
  ghost function AllEntries<K, V>(read: map<K, Entry<V>>, dirty: Option<map<K, Entry<V>>>): set<Entry<V>>
  {
    read.Values + DirtyEntries(dirty)
  }

  /** The states of the entries a key-to-entry map points to. */
  ghost function States<K, V>(m: map<K, Entry<V>>): (s: map<K, EntryState<V>>)
    reads m.Values
    ensures s.Keys == m.Keys
    ensures forall k :: k in m ==> s[k] == m[k].st
  {
    map k | k in m :: m[k].st
  }

  ghost function DirtyStates<K, V>(dirty: Option<map<K, Entry<V>>>): Option<map<K, EntryState<V>>>
    reads DirtyEntries(dirty)
  {
    if dirty.Some? then Some(States(dirty.value)) else None
  }

  /** The abstract map that a read snapshot and a dirty map stand for. */
  ghost function Abstract<K(!new), V>(read: map<K, Entry<V>>, dirty: Option<map<K, Entry<V>>>): map<K, V>
    reads AllEntries(read, dirty)
  {
    Views.View(States(read), DirtyStates(dirty))
  }

  /**
   * The entry Load's search reaches for `k`: the read snapshot first, then the
   * dirty map. It is Views.Locate one level up, on entries rather than their
   * states; FindAbstract connects the two.
   */
  function Find<K, V>(read: map<K, Entry<V>>, dirty: Option<map<K, Entry<V>>>, k: K): Option<Entry<V>>
  {
    if k in read then Some(read[k])
    else if dirty.Some? && k in dirty.value then Some(dirty.value[k])
    else None
  }

  /** Distinct keys own distinct entries (newEntry makes one entry per key). */
  ghost predicate Injective<K, V>(m: map<K, Entry<V>>)
  {
    forall k1, k2 :: k1 in m && k2 in m && m[k1] == m[k2] ==> k1 == k2
  }

  /**
   * How an existing dirty map agrees with the read snapshot
   * (go/src/sync/map.go:41-51, 76-91): no dirty entry is expunged, every
   * non-expunged read entry is the same object under the same key in the
   * dirty map, and no expunged read key is in the dirty map. This is
   * Views.Coherent on entries rather than states, with the sharing of entry
   * objects (`d[k] == read[k]`) that Views.Coherent cannot see.
   */
  ghost predicate DirtyAgrees<K, V>(read: map<K, Entry<V>>, d: map<K, Entry<V>>)
    reads read.Values, d.Values
  {
    && (forall k :: k in d ==> !d[k].st.Expunged?)
    && (forall k :: k in read && !read[k].st.Expunged? ==> k in d && d[k] == read[k])
    && (forall k :: k in read && read[k].st.Expunged? ==> k !in d)
  }

  /**
   * The bookkeeping of a Map apart from its `amended` flag: keys own distinct
   * entries; an existing dirty map agrees with the read snapshot; while the
   * dirty map is nil no read entry is expunged and no miss is counted.
   */
  ghost predicate Bookkeeping<K, V>(read: map<K, Entry<V>>, dirty: Option<map<K, Entry<V>>>, misses: nat)
    reads AllEntries(read, dirty)
  {
    && Injective(read)
    && (dirty.Some? ==> Injective(dirty.value) && DirtyAgrees(read, dirty.value))
    && (dirty.None? ==> misses == 0 && forall k :: k in read ==> !read[k].st.Expunged?)
  }

  /** What Load reports for `k` is what the abstract map holds for `k`. */
  lemma FindAbstract<K(!new), V>(read: map<K, Entry<V>>, dirty: Option<map<K, Entry<V>>>, k: K)
    ensures Find(read, dirty, k).None? ==> k !in Abstract(read, dirty)
    ensures Find(read, dirty, k).Some? ==>
              Value(Find(read, dirty, k).value.st) == (if k in Abstract(read, dirty) then Some(Abstract(read, dirty)[k]) else None)
  {
    assert Views.Get(States(read), DirtyStates(dirty), k) ==
           (if Find(read, dirty, k).Some? then Value(Find(read, dirty, k).value.st) else None);
  }

  /** Under Bookkeeping, two keys whose search reaches the same entry are the same key. */
  lemma FindInjective<K, V>(read: map<K, Entry<V>>, dirty: Option<map<K, Entry<V>>>, misses: nat, k1: K, k2: K)
    requires Bookkeeping(read, dirty, misses)
    requires Find(read, dirty, k1).Some? && Find(read, dirty, k1) == Find(read, dirty, k2)
    ensures k1 == k2
  {
    if k1 in read && k2 !in read {
      assert read[k1] == dirty.value[k2];
    } else if k1 !in read && k2 in read {
      assert read[k2] == dirty.value[k1];
    }
  }

  /**
   * Promotion (missLocked, Range): installing a coherent dirty map as the read
   * snapshot, with no dirty map and no misses left, keeps the bookkeeping and
   * the abstract map.
   */
  lemma Promote<K(!new), V>(read: map<K, Entry<V>>, d: map<K, Entry<V>>, misses: nat)
    requires Bookkeeping(read, Some(d), misses)
    ensures Bookkeeping(d, None, 0)
    ensures Abstract(d, None) == Abstract(read, Some(d))
  {
    var rs, ds := States(read), States(d);
    assert Views.Coherent(rs, ds);
    Views.PromoteKeepsView(rs, ds);
  }

  /**
   * `m.dirty[key] = newEntry(value)` for a key in neither map: the bookkeeping
   * holds on and the abstract map gains the key with the new entry's value.
   */
  lemma InsertNew<K(!new), V>(read: map<K, Entry<V>>, d: map<K, Entry<V>>, misses: nat, key: K, e: Entry<V>)
    requires Bookkeeping(read, Some(d), misses)
    requires key !in read && key !in d && e !in AllEntries(read, Some(d))
    requires e.st.Present?
    ensures Bookkeeping(read, Some(d[key := e]), misses)
    ensures Abstract(read, Some(d[key := e])) == Abstract(read, Some(d))[key := e.st.v]
  {
    var d' := d[key := e];
    assert Injective(d') by {
      assert forall k :: k in d ==> d[k] != e;
    }
    var rs, ds0, ds1 := States(read), Some(States(d)), Some(States(d'));
    forall k | k != key ensures Views.Get(rs, ds1, k) == Views.Get(rs, ds0, k) {
    }
    Views.ViewFrame(rs, ds0, rs, ds1, key);
  }

  /**
   * `delete(m.dirty, key)` for a key that is not in the read snapshot: the
   * bookkeeping holds on and the abstract map loses the key.
   */
  lemma RemoveDirtyOnly<K(!new), V>(read: map<K, Entry<V>>, d: map<K, Entry<V>>, misses: nat, key: K)
    requires Bookkeeping(read, Some(d), misses)
    requires key !in read
    ensures Bookkeeping(read, Some(d - {key}), misses)
    ensures Abstract(read, Some(d - {key})) == Abstract(read, Some(d)) - {key}
  {
    var rs, ds0, ds1 := States(read), Some(States(d)), Some(States(d - {key}));
    forall k | k != key ensures Views.Get(rs, ds1, k) == Views.Get(rs, ds0, k) {
    }
    Views.ViewFrame(rs, ds0, rs, ds1, key);
  }

  /**
   * The loop of Range over a fixed snapshot: calls `f` on each key whose entry
   * holds a value, in an arbitrary key order, with the value it holds, and
   * stops right after the first call that returns false. Returns the calls it
   * made, in order.
   */
  method Visit<K, V>(m: map<K, Entry<V>>, f: (K, V) -> bool) returns (calls: seq<(K, V)>)
    ensures forall i :: 0 <= i < |calls| ==> calls[i].0 in m && m[calls[i].0].st == Present(calls[i].1)
    ensures forall i, j :: 0 <= i < j < |calls| ==> calls[i].0 != calls[j].0
    ensures forall i :: 0 <= i < |calls| - 1 ==> f(calls[i].0, calls[i].1)
    ensures (forall i :: 0 <= i < |calls| ==> f(calls[i].0, calls[i].1)) ==>
              forall k :: k in m && m[k].st.Present? ==> exists i :: 0 <= i < |calls| && calls[i].0 == k
  {
    calls := [];
    var keys := m.Keys;
    while keys != {}
      invariant keys <= m.Keys
      invariant forall i :: 0 <= i < |calls| ==> calls[i].0 in m - keys && m[calls[i].0].st == Present(calls[i].1)
      invariant forall i, j :: 0 <= i < j < |calls| ==> calls[i].0 != calls[j].0
      invariant forall i :: 0 <= i < |calls| ==> f(calls[i].0, calls[i].1)
      invariant forall k :: k in m && k !in keys && m[k].st.Present? ==> exists i :: 0 <= i < |calls| && calls[i].0 == k
      decreases keys
    {
      var k :| k in keys;
      keys := keys - {k};
      var value := m[k].Load();
      if value.None? {
        continue;
      }
      ghost var before := calls;
      calls := calls + [(k, value.value)];
      assert calls[|before|].0 == k;
      assert forall i :: 0 <= i < |before| ==> calls[i] == before[i];
      if !f(k, value.value) {
        break;
      }
    }
  }


  class Map<K(==,!new), V> {
    var read: ReadOnly<K, V>
    var dirty: Option<map<K, Entry<V>>>
    var misses: nat

    /** Every entry either map points to. */
    ghost function Repr(): set<Entry<V>>
      reads this`read, this`dirty
    {
      AllEntries(read.m, dirty)
    }

    /** The representation invariant: Bookkeeping, and `amended` exactly when a dirty map exists. */
    ghost predicate Valid()
      reads this, Repr()
    {
      Bookkeeping(read.m, dirty, misses) && read.amended == dirty.Some?
    }

    /** The abstract map the Map stands for. */
    ghost function Contents(): map<K, V>
      reads this`read, this`dirty, Repr()
    {
      Abstract(read.m, dirty)
    }

    /** The dirty map as Go reads it: a nil map reads as empty. */
    function DirtyMap(): map<K, Entry<V>>
      reads this`dirty
    {
      if dirty.Some? then dirty.value else map[]
    }

    /** The zero Map: empty read snapshot, no dirty map, no misses. */
    constructor ()
      ensures Valid() && Contents() == map[]
      ensures read == ReadOnly(map[], false) && dirty.None? && misses == 0
    {
      read := ReadOnly(map[], false);
      dirty := None;
      misses := 0;
    }

    /**
     * Load: the value for `key` and whether one is present (None for Go's
     * `nil, false`). A key missing from the read snapshot while the snapshot
     * is amended is looked up in the dirty map and counted as a miss.
     */
    method Load(key: K) returns (value: Option<V>)
      requires Valid()
      modifies this
      ensures Valid() && Contents() == old(Contents())
      ensures value == if key in old(Contents()) then Some(old(Contents())[key]) else None
      ensures key in old(read.m) || !old(read.amended) ==>
                read == old(read) && dirty == old(dirty) && misses == old(misses)
      ensures key !in old(read.m) && old(read.amended) && old(misses) + 1 < old(|DirtyMap()|) ==>
                read == old(read) && dirty == old(dirty) && misses == old(misses) + 1
      ensures key !in old(read.m) && old(read.amended) && old(misses) + 1 >= old(|DirtyMap()|) ==>
                read == ReadOnly(old(DirtyMap()), false) && dirty.None? && misses == 0
    {
      FindAbstract(read.m, dirty, key);
      var e: Option<Entry<V>> := if key in read.m then Some(read.m[key]) else None;
      if e.None? && read.amended {
        e := if key in DirtyMap() then Some(DirtyMap()[key]) else None;
        MissLocked();
      }
      if e.None? {
        return None;
      }
      value := e.value.Load();
    }

    /** Store: afterwards `key` maps to `value` and every other key is as before. */
    method Store(key: K, value: V)
      requires Valid()
      modifies this, Repr()
      ensures Valid() && fresh(Repr() - old(Repr()))
      ensures Contents() == old(Contents())[key := value]
      ensures misses == old(misses) && read.m == old(read.m)
      ensures key in old(read.m) ==> read == old(read)
      ensures key !in old(read.m) ==> read.amended && dirty.Some? && key in dirty.value
      ensures key in old(read.m) ==>
                dirty == if old(read.m[key].st).Expunged? then Some(old(dirty).value[key := read.m[key]]) else old(dirty)
      ensures key !in old(read.m) && key in old(DirtyMap()) ==> dirty == old(dirty)
      ensures key !in old(read.m) && key !in old(DirtyMap()) && old(dirty).Some? ==> dirty.value.Keys == old(dirty).value.Keys + {key}
      ensures key !in old(read.m) && old(dirty).None? ==>
                forall k :: k in dirty.value <==> k == key || (k in read.m && old(read.m[k].st).Present?)
    {
      if key in read.m {
        var e := read.m[key];
        var ok := e.TryStore(value);
        if ok {
          Rewritten(this, key, e);
          return;
        }
        EntriesKept(this);
      }
      SlowStoreLocked(key, value);
    }

    /**
     * The part of Store that runs holding the mutex: revives an expunged read
     * entry and stores into it, or stores into the dirty map's entry, or adds a
     * new key.
     */
    method SlowStoreLocked(key: K, value: V)
      requires Valid()
      modifies this, Repr()
      ensures Valid() && fresh(Repr() - old(Repr()))
      ensures Contents() == old(Contents())[key := value]
      ensures misses == old(misses) && read.m == old(read.m)
      ensures key in old(read.m) ==> read == old(read)
      ensures key !in old(read.m) ==> read.amended && dirty.Some? && key in dirty.value
      ensures key in old(read.m) ==>
                dirty == if old(read.m[key].st).Expunged? then Some(old(dirty).value[key := read.m[key]]) else old(dirty)
      ensures key !in old(read.m) && key in old(DirtyMap()) ==> dirty == old(dirty)
      ensures key !in old(read.m) && key !in old(DirtyMap()) && old(dirty).Some? ==> dirty.value.Keys == old(dirty).value.Keys + {key}
      ensures key !in old(read.m) && old(dirty).None? ==>
                forall k :: k in dirty.value <==> k == key || (k in read.m && old(read.m[k].st).Present?)
    {
      if key in read.m {
        var e := read.m[key];
        ReviveLocked(key);
        label unexpunged:
        e.StoreLocked(value);
        Rewritten@unexpunged(this, key, e);
      } else if key in DirtyMap() {
        var e := DirtyMap()[key];
        e.StoreLocked(value);
        Rewritten(this, key, e);
      } else {
        AddLocked(key, value);
      }
    }

    /**
     * LoadOrStore: for a present key returns its value with loaded true and
     * changes nothing; otherwise stores `value` and returns it with loaded false.
     */
    method LoadOrStore(key: K, value: V) returns (actual: V, loaded: bool)
      requires Valid()
      modifies this, Repr()
      ensures Valid() && fresh(Repr() - old(Repr()))
      ensures key in old(Contents()) ==> actual == old(Contents())[key] && loaded && Contents() == old(Contents())
      ensures key !in old(Contents()) ==> actual == value && !loaded && Contents() == old(Contents())[key := value]
      ensures key in old(read.m) ==> read == old(read) && misses == old(misses)
      ensures key !in old(read.m) && key !in old(DirtyMap()) ==>
                read.m == old(read.m) && read.amended && dirty.Some? && key in dirty.value && misses == old(misses)
      ensures key !in old(read.m) && key in old(DirtyMap()) && old(misses) + 1 < old(|DirtyMap()|) ==>
                read == old(read) && dirty == old(dirty) && misses == old(misses) + 1
      ensures key !in old(read.m) && key in old(DirtyMap()) && old(misses) + 1 >= old(|DirtyMap()|) ==>
                read == ReadOnly(old(DirtyMap()), false) && dirty.None? && misses == 0
      ensures key in old(read.m) ==>
                dirty == if old(read.m[key].st).Expunged? then Some(old(dirty).value[key := read.m[key]]) else old(dirty)
      ensures key !in old(read.m) && key !in old(DirtyMap()) && old(dirty).Some? ==> dirty.value.Keys == old(dirty).value.Keys + {key}
      ensures key !in old(read.m) && old(dirty).None? ==>
                forall k :: k in dirty.value <==> k == key || (k in read.m && old(read.m[k].st).Present?)
    {
      if key in read.m {
        FindAbstract(read.m, dirty, key);
        var e := read.m[key];
        var a, l, ok := e.TryLoadOrStore(value);
        if ok {
          Rewritten(this, key, e);
          return a.value, l;
        }
        EntriesKept(this);
      }
      actual, loaded := SlowLoadOrStoreLocked(key, value);
    }

    /**
     * The part of LoadOrStore that runs holding the mutex: revives an expunged
     * read entry, or loads or stores through the dirty map (counting a miss),
     * or adds a new key.
     */
    method SlowLoadOrStoreLocked(key: K, value: V) returns (actual: V, loaded: bool)
      requires Valid()
      modifies this, Repr()
      ensures Valid() && fresh(Repr() - old(Repr()))
      ensures key in old(Contents()) ==> actual == old(Contents())[key] && loaded && Contents() == old(Contents())
      ensures key !in old(Contents()) ==> actual == value && !loaded && Contents() == old(Contents())[key := value]
      ensures key in old(read.m) ==> read == old(read) && misses == old(misses)
      ensures key !in old(read.m) && key !in old(DirtyMap()) ==>
                read.m == old(read.m) && read.amended && dirty.Some? && key in dirty.value && misses == old(misses)
      ensures key !in old(read.m) && key in old(DirtyMap()) && old(misses) + 1 < old(|DirtyMap()|) ==>
                read == old(read) && dirty == old(dirty) && misses == old(misses) + 1
      ensures key !in old(read.m) && key in old(DirtyMap()) && old(misses) + 1 >= old(|DirtyMap()|) ==>
                read == ReadOnly(old(DirtyMap()), false) && dirty.None? && misses == 0
      ensures key in old(read.m) ==>
                dirty == if old(read.m[key].st).Expunged? then Some(old(dirty).value[key := read.m[key]]) else old(dirty)
      ensures key !in old(read.m) && key !in old(DirtyMap()) && old(dirty).Some? ==> dirty.value.Keys == old(dirty).value.Keys + {key}
      ensures key !in old(read.m) && old(dirty).None? ==>
                forall k :: k in dirty.value <==> k == key || (k in read.m && old(read.m[k].st).Present?)
    {
      if key in read.m {
        actual, loaded := LoadOrStoreSnapshotLocked(key, value);
      } else if key in DirtyMap() {
        actual, loaded := LoadOrStoreDirtyLocked(key, value);
      } else {
        FindAbstract(read.m, dirty, key);
        AddLocked(key, value);
        actual, loaded := value, false;
      }
    }

    /**
     * The read-hit branch of the locked part of LoadOrStore: revives the entry
     * if it was expunged, then loads or stores through it.
     */
    method LoadOrStoreSnapshotLocked(key: K, value: V) returns (actual: V, loaded: bool)
      requires Valid() && key in read.m
      modifies this`dirty, read.m[key]
      ensures Valid() && Repr() <= old(Repr())
      ensures key in old(Contents()) ==> actual == old(Contents())[key] && loaded && Contents() == old(Contents())
      ensures key !in old(Contents()) ==> actual == value && !loaded && Contents() == old(Contents())[key := value]
      ensures read == old(read) && misses == old(misses)
      ensures dirty == if old(read.m[key].st).Expunged? then Some(old(dirty).value[key := read.m[key]]) else old(dirty)
    {
      var e := read.m[key];
      ReviveLocked(key);
      actual, loaded := LoadOrStoreEntry(key, e, value);
    }

    /**
     * The dirty-hit branch of the locked part of LoadOrStore: loads or stores
     * through the dirty map's entry, then counts a miss.
     */
    method LoadOrStoreDirtyLocked(key: K, value: V) returns (actual: V, loaded: bool)
      requires Valid() && key !in read.m && key in DirtyMap()
      modifies this, DirtyMap()[key]
      ensures Valid() && Repr() <= old(Repr())
      ensures key in old(Contents()) ==> actual == old(Contents())[key] && loaded && Contents() == old(Contents())
      ensures key !in old(Contents()) ==> actual == value && !loaded && Contents() == old(Contents())[key := value]
      ensures old(misses) + 1 < old(|DirtyMap()|) ==>
                read == old(read) && dirty == old(dirty) && misses == old(misses) + 1
      ensures old(misses) + 1 >= old(|DirtyMap()|) ==>
                read == ReadOnly(old(DirtyMap()), false) && dirty.None? && misses == 0
    {
      var e := DirtyMap()[key];
      actual, loaded := LoadOrStoreEntry(key, e, value);
      MissLocked();
    }

    /**
     * tryLoadOrStore on the entry that Load's search reaches for `key`, once
     * that entry is known not to be expunged (so the call succeeds).
     */
    method LoadOrStoreEntry(key: K, e: Entry<V>, value: V) returns (actual: V, loaded: bool)
      requires Valid() && Find(read.m, dirty, key) == Some(e) && !e.st.Expunged?
      modifies e
      ensures Valid() && Repr() == old(Repr())
      ensures key in old(Contents()) ==> actual == old(Contents())[key] && loaded && Contents() == old(Contents())
      ensures key !in old(Contents()) ==> actual == value && !loaded && Contents() == old(Contents())[key := value]
    {
      FindAbstract(read.m, dirty, key);
      var a, l, ok := e.TryLoadOrStore(value);
      Rewritten(this, key, e);
      actual, loaded := a.value, l;
    }

    /** Delete: afterwards `key` is absent and every other key is as before. */
    method Delete(key: K)
      requires Valid()
      modifies this, Repr()
      ensures Valid() && Repr() <= old(Repr())
      ensures Contents() == old(Contents()) - {key}
      ensures read == old(read) && misses == old(misses)
      ensures dirty == if key !in old(read.m) && old(read.amended) then Some(old(dirty).value - {key}) else old(dirty)
    {
      FindAbstract(read.m, dirty, key);
      var e: Option<Entry<V>> := if key in read.m then Some(read.m[key]) else None;
      if e.None? && read.amended {
        dirty := Some(dirty.value - {key});
        RemovedFromDirty(this, key);
      }
      if e.Some? {
        var hadValue := e.value.Delete();
        Rewritten(this, key, e.value);
      }
    }

    /**
     * Range: promotes the dirty map first, so that the read snapshot holds every
     * key, then calls `f` on each present key once, with its value, stopping
     * right after the first call that returns false. Returns the calls made.
     */
    method Range(f: (K, V) -> bool) returns (calls: seq<(K, V)>)
      requires Valid()
      modifies this
      ensures Valid() && Contents() == old(Contents())
      ensures !read.amended && dirty.None? && misses == 0
      ensures old(read.amended) ==> read.m == old(dirty).value
      ensures !old(read.amended) ==> read == old(read)
      ensures forall i :: 0 <= i < |calls| ==> calls[i].0 in old(Contents()) && old(Contents())[calls[i].0] == calls[i].1
      ensures forall i, j :: 0 <= i < j < |calls| ==> calls[i].0 != calls[j].0
      ensures forall i :: 0 <= i < |calls| - 1 ==> f(calls[i].0, calls[i].1)
      ensures (forall i :: 0 <= i < |calls| ==> f(calls[i].0, calls[i].1)) ==>
                forall k :: k in old(Contents()) ==> exists i :: 0 <= i < |calls| && calls[i].0 == k
    {
      if read.amended {
        read := ReadOnly(dirty.value, false);
        dirty := None;
        misses := 0;
        Promoted(this);
      }
      calls := Visit(read.m, f);
      forall k ensures k in Contents() <==> k in read.m && read.m[k].st.Present?
      ensures k in Contents() ==> read.m[k].st == Present(Contents()[k]) {
        FindAbstract(read.m, dirty, k);
      }
    }

    /**
     * The read-hit branch of the locked part of Store and LoadOrStore: an
     * expunged entry is made absent and put back into the dirty map under its
     * key; an entry in any other state is left alone.
     */
    method ReviveLocked(key: K)
      requires Valid() && key in read.m
      modifies this`dirty, read.m[key]
      ensures Valid() && Contents() == old(Contents()) && Repr() <= old(Repr())
      ensures read == old(read) && misses == old(misses)
      ensures read.m[key].st == if old(read.m[key].st).Expunged? then Absent else old(read.m[key].st)
      ensures dirty == if old(read.m[key].st).Expunged? then Some(old(dirty).value[key := read.m[key]]) else old(dirty)
    {
      var e := read.m[key];
      var wasExpunged := e.UnexpungeLocked();
      if wasExpunged {
        dirty := Some(dirty.value[key := e]);
        Revived(this, key, e);
      } else {
        EntriesKept(this);
      }
    }

    /**
     * The new-key branch of Store and LoadOrStore: makes sure a dirty map
     * exists (dirtyLocked, then marks the read snapshot amended) and adds a
     * fresh entry holding `value` to it.
     */
    method AddLocked(key: K, value: V)
      requires Valid() && key !in read.m && key !in DirtyMap()
      modifies this, Repr()
      ensures Valid() && fresh(Repr() - old(Repr()))
      ensures Contents() == old(Contents())[key := value]
      ensures read.m == old(read.m) && read.amended && dirty.Some? && key in dirty.value
      ensures misses == old(misses)
      ensures old(dirty).Some? ==> dirty.value == old(dirty).value[key := dirty.value[key]]
      ensures old(dirty).None? ==> forall k :: k in dirty.value <==> k == key || (k in read.m && old(read.m[k].st).Present?)
      ensures old(dirty).None? ==> forall k :: k in dirty.value && k != key ==> dirty.value[k] == read.m[k]
    {
      if !read.amended {
        DirtyLocked();
        label dirtied:
        read := ReadOnly(read.m, true);
        Amended@dirtied(this);
      }
      label locked:
      var e := new Entry(value);
      dirty := Some(dirty.value[key := e]);
      Inserted@locked(this, key, e);
    }

    /**
     * missLocked: counts a miss, and once the misses reach the size of the
     * dirty map promotes it to the read snapshot (unamended), dropping the
     * dirty map and resetting the counter.
     */
    method MissLocked()
      requires Valid()
      modifies this
      ensures Valid()
      ensures old(dirty).Some? ==> Contents() == old(Contents())
      ensures old(misses) + 1 < old(|DirtyMap()|) ==>
                read == old(read) && dirty == old(dirty) && misses == old(misses) + 1
      ensures old(misses) + 1 >= old(|DirtyMap()|) ==>
                read == ReadOnly(old(DirtyMap()), false) && dirty.None? && misses == 0
    {
      var d := DirtyMap();
      misses := misses + 1;
      if misses < |d| {
        EntriesKept(this);
        return;
      }
      read := ReadOnly(d, false);
      dirty := None;
      misses := 0;
      Promoted(this);
    }

    /**
     * dirtyLocked: when there is no dirty map, builds one from the read
     * snapshot, expunging every absent entry and copying every entry that
     * holds a value; when there is one, does nothing. The read snapshot is
     * left as it is: the caller marks it amended.
     */
    method DirtyLocked()
      requires Valid()
      modifies Repr(), this`dirty
      ensures Bookkeeping(read.m, dirty, misses) && dirty.Some?
      ensures read == old(read) && misses == old(misses)
      ensures Contents() == old(Contents()) && Repr() == old(Repr())
      ensures old(dirty).Some? ==> dirty == old(dirty) && unchanged(old(Repr()))
      ensures old(dirty).None? ==> forall k :: k in dirty.value <==> k in read.m && old(read.m[k].st).Present?
      ensures old(dirty).None? ==> forall k :: k in dirty.value ==> dirty.value[k] == read.m[k]
      ensures old(dirty).None? ==>
                forall k :: k in read.m ==> read.m[k].st == if old(read.m[k].st).Absent? then Expunged else old(read.m[k].st)
    {
      if dirty.Some? {
        return;
      }
      var m := read.m;
      ghost var rs := States(m);
      var d: map<K, Entry<V>> := map[];
      var keys := m.Keys;
      while keys != {}
        modifies m.Values
        invariant keys <= m.Keys
        invariant forall k :: k in m ==> m[k].st == if k !in keys && rs[k].Absent? then Expunged else rs[k]
        invariant forall k :: k in d <==> k in m && k !in keys && rs[k].Present?
        invariant forall k :: k in d ==> d[k] == m[k]
        decreases keys
      {
        var k :| k in keys;
        var isExpunged := m[k].TryExpungeLocked();
        if !isExpunged {
          d := d[k := m[k]];
        }
        keys := keys - {k};
      }
      dirty := Some(d);
      Copied(this);
    }
  }

  /*
   * The steps of the Map methods, one lemma per kind of step. Each relates the
   * Map in the state before the step (`old`) to the Map after it: the
   * representation invariant holds again and the abstract map changes as the
   * operation promises.
   *
   * Parameters other than the Map are declared `new`, and those that are read
   * inside `old(...)` come with `requires old(allocated(...))`. Dafny 4.11
   * fails to encode a two-state lemma with more than one parameter that is
   * not `new` when contradictory assumptions are being checked, so the
   * parameters that would normally be implicitly allocated in the old state
   * say so explicitly instead.
   */

  /** Only the miss counter moved (or nothing did): invariant and contents hold on. */
  twostate lemma EntriesKept<K(!new), V>(m: Map<K, V>)
    requires old(m.Valid())
    requires m.read == old(m.read) && m.dirty == old(m.dirty) && (m.dirty.None? ==> m.misses == 0)
    requires unchanged(old(m.Repr()))
    ensures m.Valid() && m.Contents() == old(m.Contents()) && m.Repr() == old(m.Repr())
  {
  }

  /** The dirty map replaced the read snapshot (missLocked, Range). */
  twostate lemma Promoted<K(!new), V>(m: Map<K, V>)
    requires old(m.Valid())
    requires m.read == ReadOnly(old(m.DirtyMap()), false) && m.dirty.None? && m.misses == 0
    requires unchanged(old(m.Repr()))
    ensures m.Valid() && m.Repr() <= old(m.Repr())
    ensures old(m.dirty).Some? ==> m.Contents() == old(m.Contents())
  {
    if old(m.dirty).Some? {
      var r, d := old(m.read.m), old(m.dirty).value;
      assert Bookkeeping(r, Some(d), old(m.misses));
      assert Abstract(r, Some(d)) == old(m.Contents());
      Promote(r, d, old(m.misses));
    }
  }

  /**
   * One entry, reached from `key`, changed state without becoming or ceasing
   * to be expunged, and nothing else changed: the abstract map changes only
   * at `key`, to what the entry now holds.
   */
  twostate lemma Rewritten<K(!new), V>(m: Map<K, V>, new key: K, new e: Entry<V>)
    requires old(allocated(e)) && old(m.Valid())
    requires m.read == old(m.read) && m.dirty == old(m.dirty) && m.misses == old(m.misses)
    requires Find(m.read.m, m.dirty, key) == Some(e)
    requires unchanged(old(m.Repr()) - {e})
    requires old(e.st).Expunged? == e.st.Expunged?
    ensures m.Valid() && m.Repr() == old(m.Repr())
    ensures m.Contents() == Views.Put(old(m.Contents()), key, Value(e.st))
  {
    var read, dirty, misses := m.read.m, m.dirty, m.misses;
    assert Bookkeeping(read, dirty, misses) by {
      if dirty.Some? {
        var d := dirty.value;
        assert forall k :: k in d ==> d[k] == e || d[k].st == old(d[k].st);
        assert forall k :: k in read ==> read[k] == e || read[k].st == old(read[k].st);
      }
    }
    var rs0, ds0 := old(States(read)), old(DirtyStates(dirty));
    var rs1, ds1 := States(read), DirtyStates(dirty);
    forall k | k != key
      ensures Views.Get(rs1, ds1, k) == Views.Get(rs0, ds0, k)
    {
      if Find(read, dirty, k).Some? {
        var f := Find(read, dirty, k).value;
        if f == e {
          FindInjective(read, dirty, misses, k, key);
        }
      }
    }
    Views.ViewFrame(rs0, ds0, rs1, ds1, key);
  }

  /**
   * unexpungeLocked followed by `m.dirty[key] = e`: an expunged read entry was
   * made absent and put back into the dirty map; nothing Load can observe
   * changed.
   */
  twostate lemma Revived<K(!new), V>(m: Map<K, V>, new key: K, new e: Entry<V>)
    requires old(allocated(e)) && old(m.Valid()) && old(m.dirty).Some?
    requires key in old(m.read.m) && old(m.read.m)[key] == e
    requires old(e.st).Expunged? && e.st.Absent?
    requires m.read == old(m.read) && m.misses == old(m.misses)
    requires m.dirty == Some(old(m.dirty).value[key := e])
    requires unchanged(old(m.Repr()) - {e})
    ensures m.Valid() && m.Repr() <= old(m.Repr())
    ensures m.Contents() == old(m.Contents())
  {
    var read, d, misses := m.read.m, old(m.dirty).value, m.misses;
    var d' := d[key := e];
    assert Bookkeeping(read, Some(d'), misses) by {
      assert forall k :: k in read ==> read[k] == e || read[k].st == old(read[k].st);
      assert forall k :: k in d ==> d[k] != e;
      assert forall k, j :: k in d' && j in d' && d'[k] == d'[j] ==> k == j;
    }
    var rs0, ds0 := old(States(read)), Some(old(States(d)));
    var rs1, ds1 := States(read), Some(States(d'));
    forall k ensures Views.Get(rs1, ds1, k) == Views.Get(rs0, ds0, k) {
      if k in read && read[k] != e {
        assert rs1[k] == rs0[k];
      }
    }
    Views.SameGetSameView(rs0, ds0, rs1, ds1);
  }

  /** The read snapshot was marked amended right after dirtyLocked. */
  twostate lemma Amended<K(!new), V>(m: Map<K, V>)
    requires old(Bookkeeping(m.read.m, m.dirty, m.misses)) && old(m.dirty).Some?
    requires m.read == ReadOnly(old(m.read.m), true) && m.dirty == old(m.dirty) && m.misses == old(m.misses)
    requires unchanged(old(m.Repr()))
    ensures m.Valid() && m.Repr() == old(m.Repr())
    ensures m.Contents() == old(m.Contents())
  {
  }

  /** A fresh entry holding a value was added to the dirty map under a new key. */
  twostate lemma Inserted<K(!new), V>(m: Map<K, V>, new key: K, new e: Entry<V>)
    requires old(m.Valid()) && old(m.dirty).Some?
    requires key !in old(m.read.m) && key !in old(m.dirty).value
    requires !old(allocated(e)) && e.st.Present?
    requires m.read == old(m.read) && m.misses == old(m.misses)
    requires m.dirty == Some(old(m.dirty).value[key := e])
    requires unchanged(old(m.Repr()))
    ensures m.Valid() && m.Repr() <= old(m.Repr()) + {e}
    ensures m.Contents() == old(m.Contents())[key := e.st.v]
  {
    var d := old(m.dirty).value;
    assert Bookkeeping(m.read.m, Some(d), m.misses);
    assert Abstract(m.read.m, Some(d)) == old(m.Contents());
    InsertNew(m.read.m, d, m.misses, key, e);
  }

  /** A key that is not in the read snapshot was deleted from the dirty map. */
  twostate lemma RemovedFromDirty<K(!new), V>(m: Map<K, V>, new key: K)
    requires old(m.Valid()) && old(m.dirty).Some?
    requires key !in old(m.read.m)
    requires m.read == old(m.read) && m.misses == old(m.misses)
    requires m.dirty == Some(old(m.dirty).value - {key})
    requires unchanged(old(m.Repr()))
    ensures m.Valid() && m.Repr() <= old(m.Repr())
    ensures m.Contents() == old(m.Contents()) - {key}
  {
    var d := old(m.dirty).value;
    assert Bookkeeping(m.read.m, Some(d), m.misses);
    assert Abstract(m.read.m, Some(d)) == old(m.Contents());
    RemoveDirtyOnly(m.read.m, d, m.misses, key);
  }

  /** dirtyLocked built a dirty map from a read snapshot that had none. */
  twostate lemma Copied<K(!new), V>(m: Map<K, V>)
    requires old(m.Valid()) && old(m.dirty).None?
    requires m.read == old(m.read) && m.misses == old(m.misses) && m.dirty.Some?
    requires forall k :: k in m.dirty.value <==> k in m.read.m && old(m.read.m[k].st).Present?
    requires forall k :: k in m.dirty.value ==> m.dirty.value[k] == m.read.m[k]
    requires forall k :: k in m.read.m ==>
               m.read.m[k].st == if old(m.read.m[k].st).Absent? then Expunged else old(m.read.m[k].st)
    ensures Bookkeeping(m.read.m, m.dirty, m.misses)
    ensures m.Contents() == old(m.Contents()) && m.Repr() == old(m.Repr())
  {
    var r, d := m.read.m, m.dirty.value;
    var rs := old(States(r));
    assert States(r) == Views.ExpungeAbsent(rs);
    assert States(d) == Views.LiveCopy(rs);
    Views.DirtyCopyKeepsView(rs);
  }
}
