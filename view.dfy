/**
 * The abstract content of a sync.Map, computed from the states of the entries
 * its read snapshot and its dirty map point to. Everything here is about
 * values: the heap-level Map in module SyncMaps reads the states of its entries
 * and hands them to these functions.
 */
module Views {
  import opened Wrappers
  import opened Entries

  /**
   * The entry state Map.Load finds for `k` (go/src/sync/map.go:102-138): the read
   * snapshot first, then the dirty map when one exists.
   */
  function Locate<K, V>(read: map<K, EntryState<V>>, dirty: Option<map<K, EntryState<V>>>, k: K): Option<EntryState<V>>
  {
    if k in read then Some(read[k])
    else if dirty.Some? && k in dirty.value then Some(dirty.value[k])
    else None
  }

  /** What Load reports for `k`: the value of the located entry, if it has one. */
  function Get<K, V>(read: map<K, EntryState<V>>, dirty: Option<map<K, EntryState<V>>>, k: K): Option<V>
  {
    match Locate(read, dirty, k)
    case None => None
    case Some(s) => Value(s)
  }

  /** Every key either structure mentions. */
  function Keys<K, V>(read: map<K, EntryState<V>>, dirty: Option<map<K, EntryState<V>>>): set<K>
  {
    read.Keys + if dirty.Some? then dirty.value.Keys else {}
  }

  /** The abstract map: a key is present exactly when Load would find a value for it. */
  function View<K(!new), V>(read: map<K, EntryState<V>>, dirty: Option<map<K, EntryState<V>>>): (m: map<K, V>)
    ensures forall k :: k in m <==> Get(read, dirty, k).Some?
    ensures forall k :: k in m ==> Get(read, dirty, k) == Some(m[k])
  {
    map k | k in Keys(read, dirty) && Get(read, dirty, k).Some? :: Get(read, dirty, k).value
  }

  /** `m` with key `k` set to the value `r` carries, or removed when `r` is None. */
  function Put<K(!new), V>(m: map<K, V>, k: K, r: Option<V>): (m': map<K, V>)
    ensures k in m' <==> r.Some?
    ensures r.Some? ==> m'[k] == r.value
    ensures forall j :: j != k ==> (j in m' <==> j in m) && (j in m ==> m'[j] == m[j])
    ensures r == (if k in m then Some(m[k]) else None) ==> m' == m
  {
    if r.Some? then m[k := r.value] else m - {k}
  }

  /**
   * How the dirty map agrees with the read snapshot while it exists
   * (go/src/sync/map.go:41-51, 76-91): it holds no expunged entry, every
   * non-expunged read entry is also in it under the same key and in the same
   * state (it is the same shared slot), and no expunged read key is in it.
   */
  ghost predicate Coherent<K, V>(read: map<K, EntryState<V>>, dirty: map<K, EntryState<V>>)
  {
    && (forall k :: k in dirty ==> !dirty[k].Expunged?)
    && (forall k :: k in read && !read[k].Expunged? ==> k in dirty && dirty[k] == read[k])
    && (forall k :: k in read && read[k].Expunged? ==> k !in dirty)
  }

  /** Two views that agree on every key but `key` differ only by what Load reports for `key`. */
  lemma ViewFrame<K(!new), V>(read: map<K, EntryState<V>>, dirty: Option<map<K, EntryState<V>>>,
                        read': map<K, EntryState<V>>, dirty': Option<map<K, EntryState<V>>>, key: K)
    requires forall k :: k != key ==> Get(read', dirty', k) == Get(read, dirty, k)
    ensures View(read', dirty') == Put(View(read, dirty), key, Get(read', dirty', key))
  {
    var a, b := View(read', dirty'), Put(View(read, dirty), key, Get(read', dirty', key));
    forall k ensures k in a <==> k in b {
    }
    forall k | k in a ensures a[k] == b[k] {
    }
  }

  /** Two pairs of structures on which Load reports the same for every key have the same view. */
  lemma SameGetSameView<K(!new), V>(read: map<K, EntryState<V>>, dirty: Option<map<K, EntryState<V>>>,
                              read': map<K, EntryState<V>>, dirty': Option<map<K, EntryState<V>>>)
    requires forall k :: Get(read', dirty', k) == Get(read, dirty, k)
    ensures View(read', dirty') == View(read, dirty)
  {
    var a, b := View(read', dirty'), View(read, dirty);
    forall k ensures k in a <==> k in b {
    }
    forall k | k in a ensures a[k] == b[k] {
    }
  }

  /**
   * Promotion (missLocked, Range): replacing a coherent read snapshot by the
   * dirty map, with no dirty map left, changes nothing Load can observe.
   */
  lemma PromoteKeepsView<K(!new), V>(read: map<K, EntryState<V>>, dirty: map<K, EntryState<V>>)
    requires Coherent(read, dirty)
    ensures View(dirty, None) == View(read, Some(dirty))
  {
    forall k ensures Get(dirty, None, k) == Get(read, Some(dirty), k) {
    }
    SameGetSameView(read, Some(dirty), dirty, None);
  }

  /** The read states after dirtyLocked: every absent slot has become expunged. */
  function ExpungeAbsent<K, V>(read: map<K, EntryState<V>>): (r: map<K, EntryState<V>>)
    ensures r.Keys == read.Keys
    ensures forall k :: k in r ==> r[k] == if read[k].Absent? then Expunged else read[k]
  {
    map k | k in read :: if read[k].Absent? then Expunged else read[k]
  }

  /** The dirty map dirtyLocked builds: the read keys whose slot tryExpungeLocked left unexpunged. */
  function LiveCopy<K(!new), V>(read: map<K, EntryState<V>>): (d: map<K, EntryState<V>>)
    ensures forall k :: k in d <==> k in read && read[k].Present?
    ensures forall k :: k in d ==> d[k] == read[k]
  {
    map k | k in read && read[k].Present? :: read[k]
  }

  /**
   * dirtyLocked, from a snapshot with no expunged slot (the state whenever the
   * dirty map is nil), yields a coherent pair and changes nothing Load can observe.
   */
  lemma DirtyCopyKeepsView<K(!new), V>(read: map<K, EntryState<V>>)
    requires forall k :: k in read ==> !read[k].Expunged?
    ensures Coherent(ExpungeAbsent(read), LiveCopy(read))
    ensures View(ExpungeAbsent(read), Some(LiveCopy(read))) == View(read, None)
  {
    var r, d := ExpungeAbsent(read), LiveCopy(read);
    forall k ensures Get(r, Some(d), k) == Get(read, None, k) {
    }
    SameGetSameView(read, None, r, Some(d));
  }
}
