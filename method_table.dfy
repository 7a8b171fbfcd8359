/**
 * An abstract Objective-C method table: which implementation each
 * (class, selector, kind) currently runs, and the exchange of two entries.
 */
module MethodTable {
  import opened Descriptor

  /** A method of a class, named by its selector; `kind` says instance or class method. */
  datatype MethodKey = MethodKey(cls: ClassHandle, selector: string, kind: MethodType)

  /** An implementation: some code of the host program, or the body of placeholder `slot`. */
  datatype Impl = Native(id: nat) | PlaceholderBody(slot: nat)

  type Table = map<MethodKey, Impl>

  /** Exchanges the implementations of two methods that both exist. */
  function Exchange(t: Table, a: MethodKey, b: MethodKey): (r: Table)
    requires a in t && b in t
    ensures r.Keys == t.Keys
    ensures r[a] == t[b] && r[b] == t[a]
    ensures forall k | k in t && k != a && k != b :: r[k] == t[k]
  {
    t[a := t[b]][b := t[a]]
  }

  /** Exchanging the same two methods again restores the table. */
  lemma ExchangeTwiceRestores(t: Table, a: MethodKey, b: MethodKey)
    requires a in t && b in t
    ensures Exchange(Exchange(t, a, b), a, b) == t
  {
    var t2 := Exchange(Exchange(t, a, b), a, b);
    assert forall k | k in t :: t2[k] == t[k];
  }
}
