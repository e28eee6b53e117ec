/**
 * Model of MultiDictionary<TKey, TValue>: a Dictionary from each key to the
 * collection of its values, together with the read-only view through which
 * IReadOnlyMultiDictionary presents the same entries.
 *
 * The stored collections are sequences held in a map that the methods
 * reassign; the read-only view is a set of functions of the current state, so
 * that it reflects every later change to a stored collection.
 */
module MultiDictionaries {
  import opened Wrappers

  /** One grouping of an ILookup: a key and the elements grouped under it. */
  datatype Grouping<K, V> = Grouping(key: K, elements: seq<V>)

  /** No key occurs twice among the groupings, as ILookup guarantees. */
  ghost predicate DistinctKeys<K, V>(lookup: seq<Grouping<K, V>>)
  {
    forall a, b | 0 <= a < b < |lookup| :: lookup[a].key != lookup[b].key
  }

  /** No element occurs twice in s. */
  ghost predicate Distinct<T>(s: seq<T>)
  {
    forall a, b | 0 <= a < b < |s| :: s[a] != s[b]
  }

  /** The error the dictionary indexer signals for an absent key (KeyNotFoundException). */
  datatype LookupError = KeyNotFound

  /** The stored collections of the keys ks, in the order of ks. */
  function CollectionsOf<K, V>(entries: map<K, seq<V>>, ks: seq<K>): (vs: seq<seq<V>>)
    requires forall n | 0 <= n < |ks| :: ks[n] in entries
    ensures |vs| == |ks|
    ensures forall n | 0 <= n < |ks| :: vs[n] == entries[ks[n]]
  {
    if ks == [] then [] else [entries[ks[0]]] + CollectionsOf(entries, ks[1..])
  }

  /** The entries of the keys ks as key/collection pairs, in the order of ks. */
  function PairsOf<K, V>(entries: map<K, seq<V>>, ks: seq<K>): (ps: seq<(K, seq<V>)>)
    requires forall n | 0 <= n < |ks| :: ks[n] in entries
    ensures |ps| == |ks|
    ensures forall n | 0 <= n < |ks| :: ps[n] == (ks[n], entries[ks[n]])
  {
    if ks == [] then [] else [(ks[0], entries[ks[0]])] + PairsOf(entries, ks[1..])
  }

  class MultiDictionary<K(==), V> {
    /** The underlying Dictionary<TKey, ICollection<TValue>>. */
    var entries: map<K, seq<V>>
    /** The order in which the underlying dictionary enumerates its keys. */
    var order: seq<K>

    /** The enumeration order lists every key of the dictionary exactly once. */
    ghost predicate Valid()
      reads this
    {
      && Distinct(order)
      && (forall n | 0 <= n < |order| :: order[n] in entries)
      && (forall k | k in entries :: k in order)
    }

    /** MultiDictionary(): a dictionary with no keys. */
    constructor ()
      ensures Valid()
      ensures entries == map[] && order == []
    {
      entries := map[];
      order := [];
    }

    /**
     * MultiDictionary(ILookup<TKey, TValue> lookup): one entry per grouping,
     * holding that grouping's elements in order.
     */
    constructor FromLookup(lookup: seq<Grouping<K, V>>)
      requires DistinctKeys(lookup)
      ensures Valid()
      ensures entries.Keys == set n | 0 <= n < |lookup| :: lookup[n].key
      ensures forall n | 0 <= n < |lookup| :: lookup[n].key in entries && entries[lookup[n].key] == lookup[n].elements
    {
      entries := map[];
      order := [];
      new;
      for n := 0 to |lookup|
        invariant Valid()
        invariant entries.Keys == set m | 0 <= m < n :: lookup[m].key
        invariant forall m | 0 <= m < n :: lookup[m].key in entries && entries[lookup[m].key] == lookup[m].elements
      {
        Set(lookup[n].key, lookup[n].elements);
      }
    }

    /** The indexer's setter, this[key] = values: inserts the key or replaces its collection. */
    method Set(key: K, values: seq<V>)
      requires Valid()
      modifies this
      ensures Valid()
      ensures entries == old(entries)[key := values]
      ensures order == if key in old(entries) then old(order) else old(order) + [key]
    {
      if key !in entries {
        order := order + [key];
      }
      entries := entries[key := values];
    }

    /**
     * Dictionary.Add: inserts a key that is not yet present; for a present key
     * it reports failure (the ArgumentException) and changes nothing.
     */
    method Add(key: K, values: seq<V>) returns (ok: bool)
      requires Valid()
      modifies this
      ensures Valid()
      ensures ok == (key !in old(entries))
      ensures ok ==> entries == old(entries)[key := values] && order == old(order) + [key]
      ensures !ok ==> entries == old(entries) && order == old(order)
      ensures ok ==> TryGetValue(key) == Some(values)
    {
      ok := key !in entries;
      if ok {
        order := order + [key];
        entries := entries[key := values];
      }
    }

    /**
     * collection.AddRange(values) on the collection stored under key. That
     * collection is a List<T>, so the call takes the List branch of
     * CollectionExtensions.AddRange: the values are appended to it, and the
     * read-only view of the key shows them.
     */
    method AppendTo(key: K, values: seq<V>)
      requires Valid() && key in entries
      modifies this
      ensures Valid() && order == old(order)
      ensures entries == old(entries)[key := old(entries)[key] + values]
      ensures Item(key) == Success(old(Item(key)).value + values)
    {
      entries := entries[key := entries[key] + values];
    }

    /**
     * TryGetValue: the collection stored under key when the key is present;
     * None (false, and a null collection) when it is absent, without an error.
     */
    function TryGetValue(key: K): (r: Option<seq<V>>)
      reads this
      ensures r.Some? <==> key in entries
      ensures r.Some? ==> r.value == entries[key]
    {
      if key in entries then Some(entries[key]) else None
    }

    /**
     * The read-only indexer: the same stored collection TryGetValue finds;
     * for an absent key, the KeyNotFoundException of the dictionary indexer.
     */
    function Item(key: K): (r: Result<seq<V>, LookupError>)
      reads this
      ensures TryGetValue(key).Some? ==> r == Success(TryGetValue(key).value)
      ensures TryGetValue(key).None? ==> r == Failure(KeyNotFound)
    {
      if key in entries then Success(entries[key]) else Failure(KeyNotFound)
    }

    /** The read-only Keys: every key of the dictionary, each exactly once. */
    function Keys(): (ks: seq<K>)
      reads this
      requires Valid()
      ensures Distinct(ks)
      ensures forall n | 0 <= n < |ks| :: ks[n] in entries
      ensures forall k | k in entries :: k in ks
    {
      order
    }

    /**
     * The read-only Values: the stored collection of every key, in the order
     * of Keys, so that position n holds what the indexer gives for Keys()[n].
     */
    function Values(): (vs: seq<seq<V>>)
      reads this
      requires Valid()
      ensures |vs| == |Keys()|
      ensures forall n | 0 <= n < |vs| :: Item(Keys()[n]) == Success(vs[n])
    {
      CollectionsOf(entries, order)
    }

    /**
     * The read-only enumerator: one key/collection pair per entry, the pair of
     * Keys()[n] and Values()[n] at position n, and no other pairs.
     */
    function Pairs(): (ps: seq<(K, seq<V>)>)
      reads this
      requires Valid()
      ensures |ps| == |Keys()|
      ensures forall n | 0 <= n < |ps| :: ps[n] == (Keys()[n], Values()[n])
      ensures forall n | 0 <= n < |ps| :: ps[n].0 in entries && entries[ps[n].0] == ps[n].1
      ensures forall k | k in entries :: (k, entries[k]) in ps
    {
      PairsOf(entries, order)
    }
  }
}
