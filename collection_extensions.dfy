/**
 * Model of ICollectionExtensions: AddRange and RemoveRange change the caller's
 * collection in place, one element at a time through ICollection.Add and
 * ICollection.Remove (or, for a List<T>, through List<T>.AddRange).
 *
 * The collection has list semantics: Add appends, Remove deletes the first
 * occurrence of its argument when there is one.
 */
module CollectionExtensions {
  import opened Wrappers

  /** ICollection.Remove on a list: the first occurrence of x, if any, is deleted. */
  function RemoveFirst<T(==)>(s: seq<T>, x: T): (r: seq<T>)
    ensures |r| == if x in s then |s| - 1 else |s|
    ensures x !in s ==> r == s
  {
    if s == [] then []
    else if s[0] == x then s[1..]
    else [s[0]] + RemoveFirst(s[1..], x)
  }

  /**
   * When x occurs in s, RemoveFirst deletes exactly its first occurrence:
   * the returned position k holds x, x does not occur before k, and only
   * position k is gone.
   */
  lemma {:induction false} RemoveFirstAt<T>(s: seq<T>, x: T) returns (k: nat)
    requires x in s
    ensures k < |s| && s[k] == x && x !in s[..k]
    ensures RemoveFirst(s, x) == s[..k] + s[k + 1..]
  {
    if s[0] == x {
      k := 0;
    } else {
      var j := RemoveFirstAt(s[1..], x);
      k := j + 1;
      assert s[..k] == [s[0]] + s[1..][..j];
      assert s[k + 1..] == s[1..][j + 1..];
    }
  }

  /**
   * Removes one occurrence of each of items, in the order of items: the result
   * is never longer than s and at most |items| shorter.
   */
  function RemoveEach<T(==)>(s: seq<T>, items: seq<T>): (r: seq<T>)
    ensures |s| - |items| <= |r| <= |s|
    decreases items
  {
    if items == [] then s else RemoveEach(RemoveFirst(s, items[0]), items[1..])
  }

  /** Removing x takes exactly one occurrence of x out of the multiset of elements. */
  lemma {:induction false} RemoveFirstMultiset<T>(s: seq<T>, x: T)
    ensures multiset(RemoveFirst(s, x)) == multiset(s) - multiset{x}
  {
    if s != [] {
      assert s == [s[0]] + s[1..];
      if s[0] != x {
        RemoveFirstMultiset(s[1..], x);
        var a, rest := multiset{s[0]}, multiset(s[1..]);
        assert multiset(RemoveFirst(s, x)) == a + (rest - multiset{x});
        assert multiset(s) == a + rest;
        assert forall y :: (a + (rest - multiset{x}))[y] == ((a + rest) - multiset{x})[y];
      }
    }
  }

  /**
   * RemoveRange takes one occurrence of each item out of the collection;
   * items that are no longer present are ignored.
   */
  lemma {:induction false} RemoveEachMultiset<T>(s: seq<T>, items: seq<T>)
    ensures multiset(RemoveEach(s, items)) == multiset(s) - multiset(items)
    decreases items
  {
    if items != [] {
      var x, more := items[0], items[1..];
      assert items == [x] + more;
      calc {
        multiset(RemoveEach(s, items));
        multiset(RemoveEach(RemoveFirst(s, x), more));
        { RemoveEachMultiset(RemoveFirst(s, x), more); }
        multiset(RemoveFirst(s, x)) - multiset(more);
        { RemoveFirstMultiset(s, x); }
        (multiset(s) - multiset{x}) - multiset(more);
        multiset(s) - (multiset{x} + multiset(more));
        multiset(s) - multiset(items);
      }
    }
  }

  /**
   * An ICollection<T> that the extension methods change in place. isList is
   * the run-time type test `collection is List<T>`.
   */
  class Collection<T(==)> {
    var items: seq<T>
    const isList: bool

    constructor (initial: seq<T>, isList: bool)
      ensures items == initial && this.isList == isList
    {
      items := initial;
      this.isList := isList;
    }

    /** ICollection.Add: appends x. */
    method Add(x: T)
      modifies this
      ensures items == old(items) + [x]
    {
      items := items + [x];
    }

    /** List<T>.AddRange: appends xs in order. */
    method AppendAll(xs: seq<T>)
      requires isList
      modifies this
      ensures items == old(items) + xs
    {
      items := items + xs;
    }

    /** ICollection.Remove: deletes the first occurrence of x and reports whether there was one. */
    method Remove(x: T) returns (removed: bool)
      modifies this
      ensures removed == (x in old(items))
      ensures items == RemoveFirst(old(items), x)
    {
      removed := x in items;
      items := RemoveFirst(items, x);
    }
  }

  /**
   * ICollectionExtensions.AddRange(collection, IEnumerable<T> items): a List<T>
   * appends all items at once, any other collection adds them one by one;
   * either way the collection ends as its old contents followed by items.
   */
  method AddRange<T(==)>(collection: Collection<T>, items: seq<T>)
    modifies collection
    ensures collection.items == old(collection.items) + items
    ensures |collection.items| == |old(collection.items)| + |items|
  {
    if collection.isList {
      collection.AppendAll(items);
    } else {
      for n := 0 to |items|
        invariant collection.items == old(collection.items) + items[..n]
      {
        collection.Add(items[n]);
      }
      assert items[..|items|] == items;
    }
  }

  /** ICollectionExtensions.AddRange(collection, params T[] items): the same as the IEnumerable overload. */
  method AddRangeParams<T(==)>(collection: Collection<T>, items: array<T>)
    modifies collection
    ensures collection.items == old(collection.items) + items[..]
  {
    AddRange(collection, items[..]);
  }

  /**
   * ICollectionExtensions.RemoveRange(collection, IEnumerable<T> items): each
   * item in turn is removed once from the collection; absent items are
   * ignored. This is the element-by-element branch, applied to every
   * collection (see RemoveRangeAsWritten for the List<T> branch).
   */
  method RemoveRange<T(==)>(collection: Collection<T>, items: seq<T>)
    modifies collection
    ensures collection.items == RemoveEach(old(collection.items), items)
    ensures multiset(collection.items) == multiset(old(collection.items)) - multiset(items)
    ensures |old(collection.items)| - |items| <= |collection.items| <= |old(collection.items)|
    ensures items == [] ==> collection.items == old(collection.items)
  {
    for n := 0 to |items|
      invariant RemoveEach(collection.items, items[n..]) == RemoveEach(old(collection.items), items)
    {
      assert items[n..] == [items[n]] + items[n + 1..];
      var _ := collection.Remove(items[n]);
    }
    RemoveEachMultiset(old(collection.items), items);
  }

  /** ICollectionExtensions.RemoveRange(collection, params T[] items): the same as the IEnumerable overload. */
  method RemoveRangeParams<T(==)>(collection: Collection<T>, items: array<T>)
    modifies collection
    ensures collection.items == RemoveEach(old(collection.items), items[..])
  {
    RemoveRange(collection, items[..]);
  }

  /**
   * RemoveRange as written. For a List<T> the call `list.RemoveRange(items)`
   * finds no List<T> instance method taking one argument and binds to this
   * same extension method, with the same arguments; fuel is the call depth
   * the stack allows, and None stands for the stack overflow. Whatever the
   * depth, a result comes back only for a collection that is not a List<T>,
   * and it is then the element-by-element removal.
   */
  function RemoveRangeAsWritten<T(==)>(isList: bool, s: seq<T>, items: seq<T>, fuel: nat): (r: Option<seq<T>>)
    ensures r.Some? ==> !isList
    ensures r.Some? ==> r.value == RemoveEach(s, items)
    ensures !isList && fuel > 0 ==> r == Some(RemoveEach(s, items))
    decreases fuel
  {
    if fuel == 0 then None
    else if isList then RemoveRangeAsWritten(isList, s, items, fuel - 1)
    else Some(RemoveEach(s, items))
  }
}
