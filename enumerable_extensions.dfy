/**
 * Model of IEnumerableExtensions: ToEnumerable, and ToMultiDictionary, which
 * groups the values of a sequence of elements by key into a MultiDictionary.
 * The key and value selectors are total functions of an element; the values an
 * element contributes are a finite sequence.
 */
module EnumerableExtensions {
  import opened Wrappers
  import opened MultiDictionaries

  /** ToEnumerable: a sequence holding exactly the one item. */
  function ToEnumerable<T>(item: T): (r: seq<T>)
    ensures |r| == 1 && r[0] == item
  {
    [item]
  }

  /**
   * The dictionary ToMultiDictionary has built after processing elements in
   * order: the first element with a given key stores that element's values
   * under the key, and every later element with the key appends its values.
   */
  function Grouped<E, K, V>(elements: seq<E>, keyOf: E -> K, valuesOf: E -> seq<V>): (r: map<K, seq<V>>)
    ensures r.Keys == KeysOf(elements, keyOf)
  {
    if elements == [] then map[]
    else
      var m := Grouped(elements[..|elements| - 1], keyOf, valuesOf);
      var e := elements[|elements| - 1];
      KeysOfLast(elements, keyOf);
      if keyOf(e) in m then m[keyOf(e) := m[keyOf(e)] + valuesOf(e)]
      else m[keyOf(e) := valuesOf(e)]
  }

  /** The key of some element of the sequence. */
  ghost function KeysOf<E, K>(elements: seq<E>, keyOf: E -> K): set<K>
  {
    set n | 0 <= n < |elements| :: keyOf(elements[n])
  }

  /** The keys of a non-empty sequence are those of all but its last element, and the last element's key. */
  lemma KeysOfLast<E, K>(elements: seq<E>, keyOf: E -> K)
    requires elements != []
    ensures KeysOf(elements, keyOf) == KeysOf(elements[..|elements| - 1], keyOf) + {keyOf(elements[|elements| - 1])}
  {
  }

  /** The values of the elements whose key is k, concatenated in the order of the elements. */
  function ValuesFor<E, K(==), V>(elements: seq<E>, keyOf: E -> K, valuesOf: E -> seq<V>, k: K): seq<V>
  {
    if elements == [] then []
    else (if keyOf(elements[0]) == k then valuesOf(elements[0]) else []) + ValuesFor(elements[1..], keyOf, valuesOf, k)
  }

  /** The values for a key of two consecutive runs of elements are those of the first run followed by those of the second. */
  lemma {:induction false} ValuesForAppend<E, K, V>(a: seq<E>, b: seq<E>, keyOf: E -> K, valuesOf: E -> seq<V>, k: K)
    ensures ValuesFor(a + b, keyOf, valuesOf, k) == ValuesFor(a, keyOf, valuesOf, k) + ValuesFor(b, keyOf, valuesOf, k)
  {
    if a == [] {
      assert a + b == b;
    } else {
      assert (a + b)[1..] == a[1..] + b;
      ValuesForAppend(a[1..], b, keyOf, valuesOf, k);
    }
  }

  /**
   * The dictionary holds one entry for every key of an element and for no
   * other key, and each entry is the concatenation, in input order, of the
   * values of the elements with that key.
   */
  lemma {:induction false} GroupedIsPerKeyConcatenation<E, K, V>(elements: seq<E>, keyOf: E -> K, valuesOf: E -> seq<V>)
    ensures Grouped(elements, keyOf, valuesOf).Keys == KeysOf(elements, keyOf)
    ensures forall k | k in Grouped(elements, keyOf, valuesOf) ::
      Grouped(elements, keyOf, valuesOf)[k] == ValuesFor(elements, keyOf, valuesOf, k)
  {
    if elements != [] {
      var prefix := elements[..|elements| - 1];
      var e := elements[|elements| - 1];
      GroupedIsPerKeyConcatenation(prefix, keyOf, valuesOf);
      assert elements == prefix + [e];
      forall k
        ensures ValuesFor(elements, keyOf, valuesOf, k)
             == ValuesFor(prefix, keyOf, valuesOf, k) + (if keyOf(e) == k then valuesOf(e) else [])
      {
        ValuesForAppend(prefix, [e], keyOf, valuesOf, k);
      }
      var m := Grouped(prefix, keyOf, valuesOf);
      if keyOf(e) !in m {
        NoValuesFor(prefix, keyOf, valuesOf, keyOf(e));
        assert Grouped(elements, keyOf, valuesOf) == m[keyOf(e) := valuesOf(e)];
        assert Grouped(elements, keyOf, valuesOf).Keys == m.Keys + {keyOf(e)};
        assert [] + valuesOf(e) == valuesOf(e);
      } else {
        assert Grouped(elements, keyOf, valuesOf) == m[keyOf(e) := m[keyOf(e)] + valuesOf(e)];
      }
      forall k | k in Grouped(elements, keyOf, valuesOf) && k != keyOf(e)
        ensures Grouped(elements, keyOf, valuesOf)[k] == ValuesFor(elements, keyOf, valuesOf, k)
      {
        assert ValuesFor(prefix, keyOf, valuesOf, k) + [] == ValuesFor(prefix, keyOf, valuesOf, k);
      }
      assert Grouped(elements, keyOf, valuesOf).Keys == KeysOf(elements, keyOf);
      assert Grouped(elements, keyOf, valuesOf)[keyOf(e)] == ValuesFor(elements, keyOf, valuesOf, keyOf(e));
    }
  }

  /** A key never leaves the dictionary, and later elements only extend its collection. */
  lemma GroupedOnlyExtends<E, K, V>(elements: seq<E>, more: seq<E>, keyOf: E -> K, valuesOf: E -> seq<V>, k: K)
    requires k in Grouped(elements, keyOf, valuesOf)
    ensures k in Grouped(elements + more, keyOf, valuesOf)
    ensures Grouped(elements, keyOf, valuesOf)[k] <= Grouped(elements + more, keyOf, valuesOf)[k]
  {
    GroupedIsPerKeyConcatenation(elements, keyOf, valuesOf);
    GroupedIsPerKeyConcatenation(elements + more, keyOf, valuesOf);
    var n :| 0 <= n < |elements| && keyOf(elements[n]) == k;
    assert keyOf((elements + more)[n]) == k;
    ValuesForAppend(elements, more, keyOf, valuesOf, k);
  }

  /** A key whose elements all contribute no values is still present, with an empty collection. */
  lemma KeyWithoutValuesIsPresent<E, K, V>(elements: seq<E>, keyOf: E -> K, valuesOf: E -> seq<V>, n: nat)
    requires n < |elements|
    requires forall m | 0 <= m < |elements| && keyOf(elements[m]) == keyOf(elements[n]) :: valuesOf(elements[m]) == []
    ensures keyOf(elements[n]) in Grouped(elements, keyOf, valuesOf)
    ensures Grouped(elements, keyOf, valuesOf)[keyOf(elements[n])] == []
  {
    GroupedIsPerKeyConcatenation(elements, keyOf, valuesOf);
    NoValuesFor(elements, keyOf, valuesOf, keyOf(elements[n]));
  }

  lemma {:induction false} NoValuesFor<E, K, V>(elements: seq<E>, keyOf: E -> K, valuesOf: E -> seq<V>, k: K)
    requires forall m | 0 <= m < |elements| && keyOf(elements[m]) == k :: valuesOf(elements[m]) == []
    ensures ValuesFor(elements, keyOf, valuesOf, k) == []
  {
    if elements != [] {
      NoValuesFor(elements[1..], keyOf, valuesOf, k);
    }
  }

  /**
   * ToMultiDictionary: a fresh dictionary holding, for every key of an
   * element, the values of the elements with that key in input order, and no
   * other key; for no elements, no keys.
   */
  method ToMultiDictionary<E, K(==), V>(elements: seq<E>, keySelector: E -> K, valuesSelector: E -> seq<V>)
    returns (dictionary: MultiDictionary<K, V>)
    ensures fresh(dictionary) && dictionary.Valid()
    ensures dictionary.entries == Grouped(elements, keySelector, valuesSelector)
    ensures dictionary.entries.Keys == KeysOf(elements, keySelector)
    ensures forall k | k in dictionary.entries ::
      dictionary.entries[k] == ValuesFor(elements, keySelector, valuesSelector, k)
    ensures elements == [] ==> dictionary.entries == map[]
  {
    dictionary := new MultiDictionary();
    for n := 0 to |elements|
      invariant fresh(dictionary) && dictionary.Valid()
      invariant dictionary.entries == Grouped(elements[..n], keySelector, valuesSelector)
    {
      var key := keySelector(elements[n]);
      var values := valuesSelector(elements[n]);
      var collection := dictionary.TryGetValue(key);
      if collection.None? {
        var _ := dictionary.Add(key, values);
      } else {
        dictionary.AppendTo(key, values);
      }
      assert elements[..n + 1][..n] == elements[..n];
    }
    assert elements[..|elements|] == elements;
    GroupedIsPerKeyConcatenation(elements, keySelector, valuesSelector);
  }
}
