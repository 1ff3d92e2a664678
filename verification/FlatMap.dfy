/** The vector-backed map (include/flat_map.hpp). It is written for any key
    type with an equality; nothing is assumed of that equality, which here is
    the asymmetric template match with the stored key on the left. */
module FlatMaps {
  import opened RequestMappers

  datatype Entry<+K, +V> = Entry(key: K, value: V)

  /** A key equality: stored key, looked-up key. */
  type Matcher<!K> = (K, K) -> bool

  /** The position of the first entry whose key matches; |es| stands for end(). */
  ghost function Slot<K, V>(m: Matcher<K>, es: seq<Entry<K, V>>, key: K): (s: nat)
    ensures s <= |es|
    ensures forall j :: 0 <= j < s ==> !m(es[j].key, key)
    ensures s < |es| ==> m(es[s].key, key)
  {
    if es == [] || m(es[0].key, key) then 0 else 1 + Slot(m, es[1..], key)
  }

  lemma {:induction false} SlotIs<K, V>(m: Matcher<K>, es: seq<Entry<K, V>>, key: K, s: nat)
    requires s <= |es| && forall j :: 0 <= j < s ==> !m(es[j].key, key)
    requires s < |es| ==> m(es[s].key, key)
    ensures Slot(m, es, key) == s
  {
  }

  lemma {:induction false} SlotCons<K, V>(m: Matcher<K>, e: Entry<K, V>, es: seq<Entry<K, V>>, key: K)
    ensures Slot(m, [e] + es, key) == if m(e.key, key) then 0 else 1 + Slot(m, es, key)
  {
    assert ([e] + es)[1..] == es;
  }

  class FlatMap<V> {
    var entries: seq<Entry<RequestMapper, V>>
    const blank: V  // Value{}

    constructor (blank: V)
      ensures entries == [] && this.blank == blank
    {
      entries := [];
      this.blank := blank;
    }

    method Find(key: RequestMapper) returns (iter: nat)
      ensures iter == Slot(KeyMatches, entries, key)
    {
      iter := 0;
      while iter < |entries|
        invariant iter <= |entries|
        invariant forall j :: 0 <= j < iter ==> !KeyMatches(entries[j].key, key)
      {
        var found := Equals(entries[iter].key, key);
        if found {
          SlotIs(KeyMatches, entries, key, iter);
          return;
        }
        iter := iter + 1;
      }
      SlotIs(KeyMatches, entries, key, iter);
    }

    /** operator[]: the slot of the value referred to, made at the back with a
        blank value if no key matches. */
    method Index(key: RequestMapper) returns (slot: nat)
      modifies this
      ensures slot == old(Slot(KeyMatches, entries, key))
      ensures slot < |entries|
      ensures entries == old(if slot < |entries| then entries else entries + [Entry(key, blank)])
    {
      slot := Find(key);
      if slot < |entries| { return; }
      slot := Put(key, blank);
    }

    method Put(key: RequestMapper, value: V) returns (slot: nat)
      modifies this
      ensures entries == old(entries) + [Entry(key, value)] && slot == |old(entries)|
    {
      entries := entries + [Entry(key, value)];
      slot := |entries| - 1;
    }

    method Remove(key: RequestMapper)
      modifies this
      ensures var s := old(Slot(KeyMatches, entries, key));
              entries == old(if s < |entries| then entries[..s] + entries[s + 1..] else entries)
    {
      var iter := Find(key);
      if iter < |entries| {
        entries := entries[..iter] + entries[iter + 1..];
      }
    }

    /** Assignment through the reference that Index returns. */
    method Assign(slot: nat, value: V)
      requires slot < |entries|
      modifies this
      ensures entries == old(entries[slot := Entry(entries[slot].key, value)])
    {
      entries := entries[slot := Entry(entries[slot].key, value)];
    }
  }
}
