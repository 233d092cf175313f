/**
 * The slot `entry` of sync.Map (go/src/sync/map.go): one logical value shared by
 * reference between the read snapshot and the dirty map.
 *
 * The Go slot is a pointer `p` that is nil (deleted while no dirty map exists),
 * the process-wide `expunged` sentinel (deleted and left out of the dirty map),
 * or a pointer to the stored value. Here the three cases are the variants of
 * EntryState. Every helper is one atomic update: in a sequential run each
 * compare-and-swap of the Go retry loops succeeds on its first attempt.
 */
module Entries {
  import opened Wrappers

  datatype EntryState<V> = Absent | Expunged | Present(v: V)

  /** What `entry.load` reports for a slot in the given state. */
  function Value<V>(s: EntryState<V>): (r: Option<V>)
    ensures r.Some? <==> s.Present?
    ensures r.Some? ==> s == Present(r.value)
  {
    match s
    case Present(v) => Some(v)
    case _ => None
  }

  class Entry<V> {
    var st: EntryState<V>

    /** newEntry: a slot that holds `v`. */
    constructor (v: V)
      ensures st == Present(v)
    {
      st := Present(v);
    }

    /** entry.load: `Value` applied to the slot's current state, read from the heap. */
    function Load(): Option<V>
      reads this
    {
      Value(st)
    }

    /** tryStore: stores `v` unless the slot is expunged, in which case it fails and changes nothing. */
    method TryStore(v: V) returns (ok: bool)
      modifies this
      ensures ok <==> !old(st).Expunged?
      ensures ok ==> st == Present(v)
      ensures !ok ==> unchanged(this)
    {
      if st.Expunged? {
        return false;
      }
      st := Present(v);
      ok := true;
    }

    /** unexpungeLocked: turns an expunged slot back into an absent one and reports whether it did. */
    method UnexpungeLocked() returns (wasExpunged: bool)
      modifies this
      ensures wasExpunged <==> old(st).Expunged?
      ensures wasExpunged ==> st == Absent
      ensures !wasExpunged ==> unchanged(this)
    {
      wasExpunged := st.Expunged?;
      if wasExpunged {
        st := Absent;
      }
    }

    /** storeLocked: stores `v` unconditionally; the caller knows the slot is not expunged. */
    method StoreLocked(v: V)
      requires !st.Expunged?
      modifies this
      ensures st == Present(v)
    {
      st := Present(v);
    }

    /**
     * tryLoadOrStore: fails (ok false, nil result, no change) on an expunged slot;
     * otherwise returns the present value with loaded true, or stores `v` into an
     * absent slot and returns it with loaded false.
     */
    method TryLoadOrStore(v: V) returns (actual: Option<V>, loaded: bool, ok: bool)
      modifies this
      ensures ok <==> !old(st).Expunged?
      ensures old(st).Expunged? ==> actual == None && !loaded
      ensures old(st).Present? ==> actual == Some(old(st).v) && loaded
      ensures old(st).Absent? ==> actual == Some(v) && !loaded && st == Present(v)
      ensures !old(st).Absent? ==> unchanged(this)
    {
      match st
      case Expunged =>
        actual, loaded, ok := None, false, false;
      case Present(w) =>
        actual, loaded, ok := Some(w), true, true;
      case Absent =>
        st := Present(v);
        actual, loaded, ok := Some(v), false, true;
    }

    /** entry.delete: clears a present slot and reports it; absent and expunged slots are left alone. */
    method Delete() returns (hadValue: bool)
      modifies this
      ensures hadValue <==> old(st).Present?
      ensures st == if hadValue then Absent else old(st)
    {
      hadValue := st.Present?;
      if hadValue {
        st := Absent;
      }
    }

    /**
     * tryExpungeLocked: marks an absent slot expunged; reports whether the slot
     * ends up expunged, which is whether it held no value on entry.
     */
    method TryExpungeLocked() returns (isExpunged: bool)
      modifies this
      ensures st == if old(st).Absent? then Expunged else old(st)
      ensures isExpunged <==> st.Expunged?
      ensures isExpunged <==> !old(st).Present?
    {
      if st.Absent? {
        st := Expunged;
      }
      isExpunged := st.Expunged?;
    }
  }
}
