# softaware.Collections in Dafny

This project models the core of softaware.Collections, a small .NET library of
collection helpers, and proves properties of the model. The modelled parts are:

- **SetMerge.MergeOverlapping** repeatedly unions any two overlapping sets of a
  list until the sets are pairwise disjoint. It is modelled as a method with the
  source's two nested loops (`set_merge.dfy`). The method is proved against
  `Merge`, a function that follows the same loop states. About `Merge` the model
  proves:
  - the sets end pairwise disjoint;
  - no element is gained or lost;
  - every input set lands inside one result set;
  - a list that is already disjoint comes back unchanged;
  - merging is idempotent;
  - the worked example from the documentation comment holds;
  - two elements share a result set exactly when a chain of overlapping input
    sets links them (the connected components of the overlap relation).
- **MultiDictionary** is a dictionary from each key to a collection of values.
  It is a class holding a map and the order in which its keys were inserted
  (`multi_dictionary.dfy`), which the views enumerate in. The model covers:
  - both constructors;
  - TryGetValue;
  - the read-only indexer, Keys, Values and enumerator of the
    IReadOnlyMultiDictionary view, which are functions of the current state;
  - the mutators the library itself uses: the indexer setter (in the lookup
    constructor), and Dictionary.Add and appending to a stored collection (in
    ToMultiDictionary).
- **IEnumerableExtensions**: ToEnumerable and ToMultiDictionary
  (`enumerable_extensions.dfy`). ToMultiDictionary is a method with the
  source's loop. It is proved equal to a fold, `Grouped`. A separate lemma
  proves that the fold holds, for each key, the values of that key's elements
  concatenated in input order, and no other keys.
- **ICollectionExtensions**: AddRange and RemoveRange, both overloads of each
  (`collection_extensions.dfy`). The caller's collection is a class whose
  contents are changed in place. RemoveRange is proved to take away one
  occurrence of each item: multiset difference.

`wrappers.dfy` holds the Option and Result types used for absent keys and
failing lookups.

## Model

| member | source | states |
|---|---|---|
| SetMerge.MergeOverlapping | softaware.Collections/SetMerge.cs:13-27 | The result is what the two loops compute. Its sets are pairwise disjoint and hold exactly the input's elements. Every input set lies inside one result set. The list never grows, and an already disjoint list is returned unchanged. |
| SetMerge.Overlaps | softaware.Collections/SetMerge.cs:19 | ISet.Overlaps holds exactly when some element lies in both sets. |
| SetMerge.Merge | softaware.Collections/SetMerge.cs:8-26 | The list MergeOverlapping leaves: pairwise disjoint sets holding exactly the input's elements, each input set inside one of them, and no more sets than the input. |
| SetMerge.MergeInto | softaware.Collections/SetMerge.cs:21-22 | UnionWith followed by RemoveAt(j): position i holds the union, earlier positions are kept, later ones shift down by one, and the list is one shorter. |
| SetMerge.MergeFrom | softaware.Collections/SetMerge.cs:15-26 | The loop from any state (list, i, j) ends, and its list is no longer than the list it started from. |
| SetMerge.MergeFromDisjoint | softaware.Collections/SetMerge.cs:8-26 | From any state whose prefix has been scanned, the loops leave only pairwise disjoint sets, as the summary promises. |
| SetMerge.MergeIntoRegroups | softaware.Collections/SetMerge.cs:19-22 | One merge step keeps the set of all elements and keeps every set inside some set of the new list. |
| SetMerge.MergeFromRegroups | softaware.Collections/SetMerge.cs:15-26 | The loops neither add nor drop an element, and each set of the starting list ends inside one result set. |
| SetMerge.MergeFromKeepsPrefix | softaware.Collections/SetMerge.cs:15-23 | Sets before the outer index are never touched again. The set at the outer index only grows. |
| SetMerge.MergeFromKeepsDisjoint | softaware.Collections/SetMerge.cs:15-19 | When no two sets overlap, the loops change nothing. |
| SetMerge.MergeIdempotent | softaware.Collections/SetMerge.cs:8-26 | Merging an already merged list returns it unchanged. |
| SetMerge.ElementInExactlyOneSet | softaware.Collections/SetMerge.cs:8-26 | Every input element lies in exactly one set of the result. |
| SetMerge.MergedSetsAreUnionsOfInputs | softaware.Collections/SetMerge.cs:19-22 | Every element of a result set comes from an input set that lies wholly inside that result set. |
| SetMerge.OverlappingSetsMerged | softaware.Collections/SetMerge.cs:19-23 | Two overlapping input sets end inside the same result set. |
| SetMerge.MergeIntoKeepsLinked | softaware.Collections/SetMerge.cs:19-22 | Merging two overlapping sets unites only elements that a chain of overlapping input sets already links. |
| SetMerge.MergeFromKeepsLinked | softaware.Collections/SetMerge.cs:15-26 | The loops only ever put together elements that are linked in the input. |
| SetMerge.ChainInOneSet | softaware.Collections/SetMerge.cs:15-26 | Every input set of a chain of pairwise overlapping sets ends inside one and the same result set. |
| SetMerge.MergeGroupsLinkedElements | softaware.Collections/SetMerge.cs:8-26 | Two elements share a result set if and only if a chain of overlapping input sets links them. The result sets are therefore the connected components of the overlap relation. |
| SetMerge.MergeExample | softaware.Collections/SetMerge.cs:9 | (1,2,3), (4,5), (6,7), (3,4), (7,8) merge to (1,2,3,4,5), (6,7,8). |
| MultiDictionaries.CollectionsOf | softaware.Collections/MultiDictionary.cs:51-54 | The stored collections of the given keys, position by position. |
| MultiDictionaries.PairsOf | softaware.Collections/MultiDictionary.cs:93-99 | One key/collection pair per given key, position by position. |
| MultiDictionaries.MultiDictionary.constructor | softaware.Collections/MultiDictionary.cs:22-24 | The new dictionary has no keys. |
| MultiDictionaries.MultiDictionary.FromLookup | softaware.Collections/MultiDictionary.cs:30-36 | The dictionary has exactly the lookup's keys. Each key holds its grouping's elements in order. |
| MultiDictionaries.MultiDictionary.Set | softaware.Collections/MultiDictionary.cs:34 | The indexer setter inserts the key or replaces its collection. A new key is enumerated last. |
| MultiDictionaries.MultiDictionary.Add | softaware.Collections/IEnumerableExtensions.cs:60-61 | Dictionary.Add succeeds exactly when the key is absent, after which TryGetValue finds the given collection. For a present key it changes nothing (the ArgumentException). |
| MultiDictionaries.MultiDictionary.AppendTo | softaware.Collections/IEnumerableExtensions.cs:65 | The values are appended to the key's stored collection, and the indexer shows the old collection followed by them. |
| MultiDictionaries.MultiDictionary.TryGetValue | softaware.Collections/MultiDictionary.cs:74-85 | Some(the stored collection) exactly when the key is present; otherwise None, without an error. |
| MultiDictionaries.MultiDictionary.Item | softaware.Collections/MultiDictionary.cs:61-64 | The indexer gives the collection TryGetValue finds, or KeyNotFound for an absent key. |
| MultiDictionaries.MultiDictionary.Keys | softaware.Collections/MultiDictionary.cs:42-45 | Every key of the dictionary, each exactly once. |
| MultiDictionaries.MultiDictionary.Values | softaware.Collections/MultiDictionary.cs:51-54 | One collection per key. Position n holds what the indexer gives for the n-th key. |
| MultiDictionaries.MultiDictionary.Pairs | softaware.Collections/MultiDictionary.cs:93-99 | The enumerator gives the n-th key with the n-th value. Every pair is an entry of the dictionary, and every entry appears. |
| EnumerableExtensions.ToEnumerable | softaware.Collections/IEnumerableExtensions.cs:17-20 | A sequence that holds exactly the one item. |
| EnumerableExtensions.ToMultiDictionary | softaware.Collections/IEnumerableExtensions.cs:46-70 | A fresh dictionary. It holds a key exactly when some element has that key, with the values of those elements concatenated in input order. No elements give no keys. |
| EnumerableExtensions.Grouped | softaware.Collections/IEnumerableExtensions.cs:52-66 | The dictionary the loop has built after a run of elements holds exactly the keys of those elements. |
| EnumerableExtensions.ValuesForAppend | softaware.Collections/IEnumerableExtensions.cs:52-66 | For every key, the values of two consecutive runs of elements are the first run's values followed by the second's. |
| EnumerableExtensions.GroupedIsPerKeyConcatenation | softaware.Collections/IEnumerableExtensions.cs:52-66 | Adding a key's first values and appending later ones yields, for every key of an element, the in-order concatenation of its elements' values, and no other key. |
| EnumerableExtensions.GroupedOnlyExtends | softaware.Collections/IEnumerableExtensions.cs:63-66 | Later elements never remove a key; they only extend its collection at the end. |
| EnumerableExtensions.KeyWithoutValuesIsPresent | softaware.Collections/IEnumerableExtensions.cs:58-61 | A key whose elements contribute no values is still present, with an empty collection, which is distinct from an absent key. |
| EnumerableExtensions.NoValuesFor | softaware.Collections/IEnumerableExtensions.cs:58-61 | When every element with a key contributes no values, the key's concatenation is empty. |
| CollectionExtensions.RemoveFirst | softaware.Collections/ICollectionExtensions.cs:69 | ICollection.Remove on a list shortens it by one exactly when the item is present and leaves it unchanged otherwise. |
| CollectionExtensions.RemoveFirstAt | softaware.Collections/ICollectionExtensions.cs:69 | The deleted position holds the item, no earlier position does, and nothing else changes. |
| CollectionExtensions.RemoveFirstMultiset | softaware.Collections/ICollectionExtensions.cs:69 | Remove takes exactly one occurrence of the item out of the collection's multiset. |
| CollectionExtensions.RemoveEach | softaware.Collections/ICollectionExtensions.cs:67-70 | Removing each item in turn never lengthens the collection, and it loses at most one element per item. |
| CollectionExtensions.RemoveEachMultiset | softaware.Collections/ICollectionExtensions.cs:67-70 | Removing each item in turn is multiset difference. Items that are no longer present are ignored. |
| CollectionExtensions.Collection.Add | softaware.Collections/ICollectionExtensions.cs:37 | ICollection.Add on a list appends the item. |
| CollectionExtensions.Collection.AppendAll | softaware.Collections/ICollectionExtensions.cs:31 | List<T>.AddRange appends the items in order. |
| CollectionExtensions.Collection.Remove | softaware.Collections/ICollectionExtensions.cs:69 | ICollection.Remove reports whether the item was present and deletes its first occurrence. |
| CollectionExtensions.AddRange | softaware.Collections/ICollectionExtensions.cs:27-40 | Both branches leave the old contents followed by the items, in order. |
| CollectionExtensions.AddRangeParams | softaware.Collections/ICollectionExtensions.cs:16-19 | The params overload appends the array's items, as the IEnumerable overload does. |
| CollectionExtensions.RemoveRange | softaware.Collections/ICollectionExtensions.cs:59-72 | Each item in turn is removed once. The result is the old multiset minus the items' multiset, and no items change nothing. |
| CollectionExtensions.RemoveRangeParams | softaware.Collections/ICollectionExtensions.cs:48-51 | The params overload removes the array's items, as the IEnumerable overload does. |
| CollectionExtensions.RemoveRangeAsWritten | softaware.Collections/ICollectionExtensions.cs:61-64 | As written, the call returns at no call depth for a List<T>, because the List branch calls itself with the same arguments. For any other collection it returns the element-by-element removal as soon as one call fits on the stack. |

## Left out

- ObservableCollectionExtensions.HandleChanges is event-handler plumbing around ObservableCollection, so it is not part of this model.
- IEnumerableExtensions.ForEach only runs an arbitrary caller-supplied action on each element, so there is nothing to model.
- IReadOnlyMultiDictionary is an interface without members of its own. Its view is modelled through MultiDictionary's Keys, Values, Item, TryGetValue and Pairs.
- Hashing and equality comparers are not modelled. The field `order` is the insertion order of the keys: Set and Add put a new key last, and every view follows `order` and lists each key once. An add-only Dictionary enumerates in insertion order in practice, but .NET does not document Dictionary enumeration order, so the position of a key in Keys, Values and the enumerator is a modelling choice, not a promise of the library.
- Object identity is modelled as value semantics. Sets and stored collections are values, so the model does not capture aliasing, such as one ISet appearing twice in the list, or a caller keeping a reference to a stored collection.
- SetMerge.MergeOverlapping returns the rewritten list instead of updating the caller's IList in place.
- SetMerge.MergeOverlapping does not state the order of the result sets. MergeFromKeepsPrefix states the ordering fact the model proves: a finished position is never disturbed.
- Laziness (`yield return` in ToEnumerable and in the enumerator) and the one-pass consumption of IEnumerable inputs are not modelled. Sequences are finite values, and selectors are total functions evaluated once per element.
- Null keys, null sets and null collections are not modelled, because the model's types have no null. This includes the ArgumentNullException paths of the .NET collections and the filtering done by `OfType` in the Values view.
- An ICollection whose Add or Remove does not have list semantics (a HashSet that ignores duplicates, say) is not modelled. Collection has list semantics.
- Dictionary members inherited by MultiDictionary and not used by the core (Remove, Clear, ContainsKey, Count) are not part of this model.
- MultiDictionaries.MultiDictionary.FromLookup requires distinct grouping keys. ILookup's contract promises them, and the model relies on it. A custom ILookup that broke the contract would repeat a key, and the indexer setter at MultiDictionary.cs:34 would then keep the last grouping; the model does not cover that case.

## Findings

| source | as written | input that shows it | evidently intended | confidence | as-written member | corrected member |
|---|---|---|---|---|---|---|
| softaware.Collections/ICollectionExtensions.cs:61-64 | For a List<T>, `list.RemoveRange(items)` calls RemoveRange with one argument. List<T> has only RemoveRange(int, int), so the call binds back to this same extension method with the same arguments and recurses until the stack overflows. | Any List<T> collection, e.g. the list [1] with items [1] | Remove each item once, as the element-by-element branch at lines 67-70 does for other collections | high; not executed | CollectionExtensions.RemoveRangeAsWritten | CollectionExtensions.RemoveRange |
