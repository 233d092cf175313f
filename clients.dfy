/**
 * What a caller of sync.Map can rely on across several calls, derived only
 * from the contracts of the Map methods: the Map behaves as one finite map
 * whichever of its two internal maps a key happens to live in.
 */
module Clients {
  import opened Wrappers
  import opened SyncMaps

  /** After Store(k, v), Load(k) finds v, and Load of any other key finds what it found before. */
  method StoreThenLoad<K(==,!new), V>(m: Map<K, V>, k: K, v: V, other: K) returns (found: Option<V>, foundOther: Option<V>)
    requires m.Valid() && other != k
    modifies m, m.Repr()
    ensures m.Valid()
    ensures found == Some(v)
    ensures foundOther == if other in old(m.Contents()) then Some(old(m.Contents())[other]) else None
  {
    m.Store(k, v);
    found := m.Load(k);
    foundOther := m.Load(other);
  }

  /** After Delete(k), Load(k) finds nothing. */
  method DeleteThenLoad<K(==,!new), V>(m: Map<K, V>, k: K) returns (found: Option<V>)
    requires m.Valid()
    modifies m, m.Repr()
    ensures m.Valid() && m.Contents() == old(m.Contents()) - {k}
    ensures found == None
  {
    m.Delete(k);
    found := m.Load(k);
  }

  /**
   * A second LoadOrStore of the same key loads what the first one left there,
   * whatever value it offers, and changes nothing.
   */
  method LoadOrStoreTwice<K(==,!new), V>(m: Map<K, V>, k: K, v: V, w: V)
    returns (first: V, firstLoaded: bool, second: V, secondLoaded: bool)
    requires m.Valid()
    modifies m, m.Repr()
    ensures m.Valid()
    ensures k in old(m.Contents()) ==> first == old(m.Contents())[k] && firstLoaded
    ensures k !in old(m.Contents()) ==> first == v && !firstLoaded
    ensures second == first && secondLoaded
    ensures m.Contents() == old(m.Contents())[k := first]
  {
    first, firstLoaded := m.LoadOrStore(k, v);
    assert k in m.Contents() && m.Contents()[k] == first;
    second, secondLoaded := m.LoadOrStore(k, w);
  }

  /**
   * Store followed by Delete of the same key leaves the other keys as they
   * were and the key itself absent, whether or not it was present before.
   */
  method StoreThenDelete<K(==,!new), V>(m: Map<K, V>, k: K, v: V)
    requires m.Valid()
    modifies m, m.Repr()
    ensures m.Valid() && m.Contents() == old(m.Contents()) - {k}
  {
    ghost var before := m.Contents();
    m.Store(k, v);
    m.Delete(k);
    OverwrittenKeyRemoved(before, k, v);
  }

  /** Removing a key undoes any earlier write to it. */
  lemma OverwrittenKeyRemoved<K, V>(c: map<K, V>, k: K, v: V)
    ensures c[k := v] - {k} == c - {k}
  {
  }

  /**
   * The write-once-then-read life cycle of a zero Map: the first Store puts
   * the key into a new dirty map of one entry; the first Load of it misses
   * and, one miss covering that one entry, promotes the dirty map; a Store of
   * a second key then makes a new dirty copy of the promoted snapshot beside
   * it.
   */
  method PromoteThenRecopy<K(==,!new), V>(k1: K, v1: V, k2: K, v2: V) returns (m: Map<K, V>, found: Option<V>)
    requires k1 != k2
    ensures m.Valid() && m.Contents() == map[k1 := v1, k2 := v2]
    ensures found == Some(v1)
    ensures m.read.m.Keys == {k1} && m.read.amended && m.misses == 0
    ensures m.dirty.Some? && m.dirty.value.Keys == {k1, k2}
  {
    m, found := FirstLoadPromotes(k1, v1);
    RecopyAfterPromotion(m, k1, k2, v2);
  }

  /** Store into a zero Map, then Load the key: the one miss promotes the one-entry dirty map. */
  method FirstLoadPromotes<K(==,!new), V>(k: K, v: V) returns (m: Map<K, V>, found: Option<V>)
    ensures fresh(m) && fresh(m.Repr())
    ensures m.Valid() && m.Contents() == map[k := v]
    ensures found == Some(v)
    ensures m.read.m.Keys == {k} && !m.read.amended && m.dirty.None? && m.misses == 0
  {
    m := new Map();
    m.Store(k, v);
    assert m.dirty.value.Keys == {k};
    found := m.Load(k);
  }

  /** A Store of a new key right after a promotion copies the promoted key into the new dirty map. */
  method RecopyAfterPromotion<K(==,!new), V>(m: Map<K, V>, k1: K, k2: K, v2: V)
    requires m.Valid() && m.dirty.None? && m.read.m.Keys == {k1} && k1 in m.Contents() && k1 != k2
    modifies m, m.Repr()
    ensures m.Valid() && m.Contents() == old(m.Contents())[k2 := v2]
    ensures m.read.m.Keys == {k1} && m.read.amended && m.misses == 0
    ensures m.dirty.Some? && m.dirty.value.Keys == {k1, k2}
  {
    assert m.read.m[k1].st.Present? by {
      FindAbstract(m.read.m, m.dirty, k1);
    }
    m.Store(k2, v2);
  }
}
