# A verified model of `Iterate` and `MutableByte` from GS Collections

`Iterate` is the static utility of GS Collections that runs bulk operations on
any `java.lang.Iterable`. Each operation checks its argument with a fixed chain
of `instanceof` tests. The first test that holds picks one strategy:

- the rich protocol of the library's own collections;
- the `ArrayList`, `RandomAccess` or `List` engine;
- a `java.util.Collection` path;
- plain sequential traversal.

A null argument is rejected. `MutableByte` is a mutable 8-bit integer cell with
Java `byte` arithmetic.

The model is split as follows:

- `lang.dfy` (`Lang`): the Java exceptions, `Result` and `Option`.
- `dispatch.dfy` (`Dispatch`): the argument as `Source`, which is null or an
  instance with the set of types its class implements and its elements in
  traversal order.
  - Each if-chain is a `Chain` of branches, one per `instanceof` test.
  - `Route` walks a chain like the if-statements do.
  - Its meaning is stated as "first branch whose test holds" (`FirstMatch`) and
    as a precedence order on strategies (`Rank`, `Ranked`).
  - `Run` and `RunChecked` add the null check.
- `sequences.dfy` (`Sequences`) and `sorting.dfy` (`Sorting`): the reference
  meaning of every engine as functions on sequences. They cover filtering,
  mapping, counting, the left fold, the quantifiers, first match, zipping,
  take and drop, grouping, aggregation and chunking. `Sorting` adds the Java
  comparator contract, the predicate-built comparator, a stable sort and the
  first-wins minimum and maximum.
- `iterate.dfy` (`Iterate`): one function per dispatching operation. It has the
  exact chain of its Java method. Its contract states the null behaviour, that
  the chosen strategy is the first match, and what the result is whichever
  branch runs. Results are ordered sequences; where Java builds a set
  instead, "## Left out" says what differs.
- `iterate_laws.dfy` (`IterateLaws`): lemmas about the operations.
  - How they relate: select and reject, count, the quantifiers and detect,
    take and drop, emptiness.
  - The precedence each chain gives. The irregular chains are covered too:
    `take` has no rich branch, `drop` has no `ArrayList` branch, `collectWith`
    tests `List`, `sizeOf` tests `Collection` first, and `getFirst`/`getLast`
    have `SortedSet` and `LinkedList` branches.
- `iterate_stateful.dfy` (`IterateStateful`): the operations that change things
  in place or accumulate step by step. These are `sortThis` (three overloads),
  `sortThisBy`, `removeIf`/`removeIfWith`, `addAllIterable`/`addAllTo`,
  `toMap`/`addToMap` and `min`/`max`. They are written as classes with mutable
  fields and methods with loops, and each is proved against a reference
  function.
- `mutable_byte.dfy` (`Bytes`): the class `MutableByte`. It writes out the
  `(byte)` narrowing after each compound assignment and Java's
  truncating division.

Null handling is not uniform in the code, and the model follows it:

- A null argument is not always rejected with IllegalArgumentException.
  `addAllIterable` and `addAllTo` throw NullPointerException.
- `sortThis(null)` fails in `list.size()` with NullPointerException.
- `removeIf` on a plain `Iterable` removes the elements and then returns null.

## Model

| member | source | states |
|---|---|---|
| Dispatch.RouteIsFirstMatch | collections/src/main/java/com/gs/collections/impl/utility/Iterate.java:110-132 | walking an if-chain selects the strategy of the first branch whose `instanceof` test holds, or the fallback when none holds |
| Dispatch.FirstMatchUnique | collections/src/main/java/com/gs/collections/impl/utility/Iterate.java:110-132 | exactly one strategy satisfies the first-match condition |
| Dispatch.RouteHighestRanked | collections/src/main/java/com/gs/collections/impl/utility/Iterate.java:219-245 | on a chain ordered by precedence, a source that passes several tests gets the highest-ranked strategy among them |
| Dispatch.Run | collections/src/main/java/com/gs/collections/impl/utility/Iterate.java:124-131 | a null source raises IllegalArgumentException; any other source is routed by first match and every branch yields the reference result |
| Dispatch.RunChecked | collections/src/main/java/com/gs/collections/impl/utility/Iterate.java:2914-2925 | as `Run`, with an engine that may reject its input; that error is propagated |
| Dispatch.FallbackIffNonePasses | collections/src/main/java/com/gs/collections/impl/utility/Iterate.java:794-822 | when no branch shares the fallback strategy, the fallback is taken exactly when no test holds |
| Dispatch.RouteAt | collections/src/main/java/com/gs/collections/impl/utility/Iterate.java:1819-1842 | the strategy of the first passing branch is the one taken |
| Dispatch.RouteFallback | collections/src/main/java/com/gs/collections/impl/utility/Iterate.java:1882-1905 | the fallback is taken when no test holds |
| Sequences.Partition | collections/src/main/java/com/gs/collections/impl/utility/Iterate.java:330-349 | the two halves are the selected and the rejected elements |
| Sequences.PartitionIsExact | collections/src/main/java/com/gs/collections/impl/utility/Iterate.java:293-315 | selected and rejected elements together are exactly the source, as a multiset |
| Sequences.FilterConcat | collections/src/main/java/com/gs/collections/impl/utility/Iterate.java:563-585 | selecting from a concatenation concatenates the selections |
| Sequences.FilterMembership | collections/src/main/java/com/gs/collections/impl/utility/Iterate.java:219-245 | an element is selected exactly when it is in the source and satisfies the predicate |
| Sequences.Map | collections/src/main/java/com/gs/collections/impl/utility/Iterate.java:1001-1031 | collect keeps the length and maps element i to `f` of element i |
| Sequences.FlatMapSingletons | collections/src/main/java/com/gs/collections/impl/utility/Iterate.java:1628-1658 | flatCollect with singleton results is collect |
| Sequences.FlatMapConcat | collections/src/main/java/com/gs/collections/impl/utility/Iterate.java:1701-1723 | flatCollect distributes over concatenation |
| Sequences.Count | collections/src/main/java/com/gs/collections/impl/utility/Iterate.java:431-450 | the count is the number of selected elements |
| Sequences.CountAll | collections/src/main/java/com/gs/collections/impl/utility/Iterate.java:2517-2528 | counting with an always-true predicate gives the size |
| Sequences.CountComplement | collections/src/main/java/com/gs/collections/impl/utility/Iterate.java:431-450 | the count of a predicate and the number of rejected elements add up to the size |
| Sequences.QuantifierDuality | collections/src/main/java/com/gs/collections/impl/utility/Iterate.java:2291-2415 | noneSatisfy is the negation of anySatisfy, and allSatisfy is noneSatisfy of the negated predicate |
| Sequences.Detect | collections/src/main/java/com/gs/collections/impl/utility/Iterate.java:1921-1940 | no result exactly when nothing matches; otherwise the element at the first matching index |
| Sequences.DetectIndex | collections/src/main/java/com/gs/collections/impl/utility/Iterate.java:2007-2022 | the first matching index, -1 exactly when nothing matches |
| Sequences.DetectAtDetectIndex | collections/src/main/java/com/gs/collections/impl/utility/Iterate.java:1921-2022 | detect returns the element at the index detectIndex reports |
| Sequences.InjectIntoConcat | collections/src/main/java/com/gs/collections/impl/utility/Iterate.java:2050-2072 | a left fold over a concatenation folds the second part from the first part's result |
| Sequences.InjectIntoSnoc | collections/src/main/java/com/gs/collections/impl/utility/Iterate.java:2050-2072 | folding one more element applies the function once more to the previous result |
| Sequences.SumOfIsInjectInto | collections/src/main/java/com/gs/collections/impl/utility/Iterate.java:2185-2220 | the sum is the fold of addition from zero |
| Sequences.Zip | collections/src/main/java/com/gs/collections/impl/utility/Iterate.java:2805-2824 | pairs by position, as long as the shorter side |
| Sequences.ZipWithIndexPairs | collections/src/main/java/com/gs/collections/impl/utility/Iterate.java:2856-2883 | element i is paired with i |
| Sequences.ZipKeepsFirst | collections/src/main/java/com/gs/collections/impl/utility/Iterate.java:2805-2824 | the first components of zip are a prefix of the first source |
| Sequences.TakeDropSplit | collections/src/main/java/com/gs/collections/impl/utility/Iterate.java:623-666 | take and drop with the same count split the elements at one position |
| Sequences.GroupIntoContents | collections/src/main/java/com/gs/collections/impl/utility/Iterate.java:2620-2642 | each key's group gains exactly the elements with that key, in order, after what the target held |
| Sequences.GroupByContents | collections/src/main/java/com/gs/collections/impl/utility/Iterate.java:2590-2615 | keys are those of some element, and each group holds exactly the elements with that key, in order |
| Sequences.PutUnderKeysContents | collections/src/main/java/com/gs/collections/impl/utility/Iterate.java:2733-2755 | filing one element under a list of keys appends it to each key's group once per occurrence of that key, and adds exactly the listed keys |
| Sequences.GroupEachIntoContents | collections/src/main/java/com/gs/collections/impl/utility/Iterate.java:2733-2755 | each key's group gains, in traversal order, every element once per occurrence of that key among the element's keys |
| Sequences.GroupEachIntoKeys | collections/src/main/java/com/gs/collections/impl/utility/Iterate.java:2733-2755 | the keys are those of the target and those some element produces, and no others |
| Sequences.GroupEachIntoSingleKeys | collections/src/main/java/com/gs/collections/impl/utility/Iterate.java:2733-2755 | groupByEach with one key per element is groupBy into the same target |
| Sequences.GroupByEachGeneralizesGroupBy | collections/src/main/java/com/gs/collections/impl/utility/Iterate.java:2703-2728 | groupByEach with one key per element is groupBy |
| Sequences.AggregateIntoGroups | collections/src/main/java/com/gs/collections/impl/utility/Iterate.java:2675-2698 | each aggregated value is the fold of its key's group |
| Sequences.AggregateByFoldsGroups | collections/src/main/java/com/gs/collections/impl/utility/Iterate.java:2647-2698 | aggregateBy has the keys of groupBy, each folded from the zero value |
| Sequences.Chunks | collections/src/main/java/com/gs/collections/impl/utility/Iterate.java:2914-2925 | every chunk is non-empty and at most `size` long, and all but the last are full |
| Sequences.Chunk | collections/src/main/java/com/gs/collections/impl/utility/Iterate.java:2914-2925 | the result is an error exactly for a non-positive size, and that error is IllegalArgumentException (the engines' behaviour, assumed) |
| Sequences.ChunksConcat | collections/src/main/java/com/gs/collections/impl/utility/Iterate.java:2914-2925 | concatenating the chunks gives back the elements |
| Sequences.First | collections/src/main/java/com/gs/collections/impl/utility/Iterate.java:1819-1842 | none exactly for an empty source, otherwise the first element |
| Sequences.Last | collections/src/main/java/com/gs/collections/impl/utility/Iterate.java:1882-1905 | none exactly for an empty source, otherwise the last element |
| Sorting.PredicateCompare | collections/src/main/java/com/gs/collections/impl/utility/Iterate.java:762-780 | returns -1 exactly when the predicate accepts (o1, o2), 1 exactly when it rejects that and accepts (o2, o1), and 0 otherwise |
| Sorting.PredicateCompareSymmetry | collections/src/main/java/com/gs/collections/impl/utility/Iterate.java:762-780 | an irreflexive predicate compares an element equal to itself, and an asymmetric one gives compare(a, b) = -compare(b, a) |
| Sorting.PredicateComparatorValid | collections/src/main/java/com/gs/collections/impl/utility/Iterate.java:762-780 | a strict weak order yields a comparator that meets the Comparator contract |
| Sorting.KeyComparatorValid | collections/src/main/java/com/gs/collections/impl/utility/Iterate.java:786-789 | comparing by a key meets the Comparator contract |
| Sorting.NegatedValid | collections/src/main/java/com/gs/collections/impl/utility/Iterate.java:2770-2775 | reversing a valid comparator keeps it valid |
| Sorting.Insert | collections/src/main/java/com/gs/collections/impl/utility/Iterate.java:716-757 | inserting adds exactly `x` to the multiset and one to the length |
| Sorting.InsertShape | collections/src/main/java/com/gs/collections/impl/utility/Iterate.java:716-757 | the result is the list split at the insertion point with `x` in between |
| Sorting.InsertionPointBounds | collections/src/main/java/com/gs/collections/impl/utility/Iterate.java:716-757 | `x` compares above every element before the insertion point and not above the one at it |
| Sorting.InsertPlaces | collections/src/main/java/com/gs/collections/impl/utility/Iterate.java:716-757 | `x` goes right before the first element it does not exceed, and every other element keeps its order |
| Sorting.StableSortPermutes | collections/src/main/java/com/gs/collections/impl/utility/Iterate.java:716-757 | sorting is a permutation |
| Sorting.StableSortSmall | collections/src/main/java/com/gs/collections/impl/utility/Iterate.java:716-757 | a list of at most one element is left as it is |
| Sorting.StableSortSorted | collections/src/main/java/com/gs/collections/impl/utility/Iterate.java:716-757 | under a valid comparator the result is sorted |
| Sorting.StableSortStable | collections/src/main/java/com/gs/collections/impl/utility/Iterate.java:716-757 | the elements of each equivalence class keep their relative order |
| Sorting.MinOfIsFirstMinimum | collections/src/main/java/com/gs/collections/impl/utility/Iterate.java:2760-2765 | the fold keeps the first element that no other undercuts |
| Sorting.MaxOfIsFirstMaximum | collections/src/main/java/com/gs/collections/impl/utility/Iterate.java:2770-2775 | the fold keeps the first element that no other exceeds |
| Sorting.NaturalMinimum | collections/src/main/java/com/gs/collections/impl/utility/Iterate.java:2780-2783 | in natural order the fold yields an element of the sequence that no element is below |
| Sorting.NaturalMaximum | collections/src/main/java/com/gs/collections/impl/utility/Iterate.java:2788-2791 | in natural order the fold yields an element of the sequence that no element is above |
| Sorting.MinOfSnoc | collections/src/main/java/com/gs/collections/impl/utility/Iterate.java:2760-2765 | one more element replaces the minimum only when it compares strictly less |
| Iterate.ForEach | collections/src/main/java/com/gs/collections/impl/utility/Iterate.java:110-132 | null is rejected; the procedure sees every element once, in order, through the first-matching strategy |
| Iterate.ForEachWith | collections/src/main/java/com/gs/collections/impl/utility/Iterate.java:151-176 | each element is passed with the parameter |
| Iterate.ForEachWithIndex | collections/src/main/java/com/gs/collections/impl/utility/Iterate.java:182-204 | each element is passed with its position |
| Iterate.Select | collections/src/main/java/com/gs/collections/impl/utility/Iterate.java:219-245 | null is rejected; the result is the elements satisfying the predicate, in order |
| Iterate.SelectWith | collections/src/main/java/com/gs/collections/impl/utility/Iterate.java:254-284 | as select, with the parameter |
| Iterate.SelectInto | collections/src/main/java/com/gs/collections/impl/utility/Iterate.java:563-585 | the selected elements follow the target's own |
| Iterate.SelectWithInto | collections/src/main/java/com/gs/collections/impl/utility/Iterate.java:590-613 | as select into a target, with the parameter |
| Iterate.Reject | collections/src/main/java/com/gs/collections/impl/utility/Iterate.java:685-711 | the elements not satisfying the predicate, in order |
| Iterate.RejectWith | collections/src/main/java/com/gs/collections/impl/utility/Iterate.java:863-893 | as reject, with the parameter |
| Iterate.RejectInto | collections/src/main/java/com/gs/collections/impl/utility/Iterate.java:908-930 | the rejected elements follow the target's own |
| Iterate.RejectWithInto | collections/src/main/java/com/gs/collections/impl/utility/Iterate.java:935-962 | as reject into a target, with the parameter |
| Iterate.SelectAndRejectWith | collections/src/main/java/com/gs/collections/impl/utility/Iterate.java:293-315 | the selected and the rejected elements |
| Iterate.Partition | collections/src/main/java/com/gs/collections/impl/utility/Iterate.java:330-349 | the selected and the rejected elements |
| Iterate.PartitionWith | collections/src/main/java/com/gs/collections/impl/utility/Iterate.java:366-385 | as partition, with the parameter |
| Iterate.Count | collections/src/main/java/com/gs/collections/impl/utility/Iterate.java:431-450 | the number of elements that satisfy the predicate |
| Iterate.CountWith | collections/src/main/java/com/gs/collections/impl/utility/Iterate.java:459-481 | as count, with the parameter |
| Iterate.Take | collections/src/main/java/com/gs/collections/impl/utility/Iterate.java:623-645 | the first `count` elements; the chain has no rich-protocol branch |
| Iterate.Drop | collections/src/main/java/com/gs/collections/impl/utility/Iterate.java:655-666 | all but the first `count` elements; the chain has only a RandomAccess branch |
| Iterate.Collect | collections/src/main/java/com/gs/collections/impl/utility/Iterate.java:1001-1031 | the elements mapped in order |
| Iterate.CollectInto | collections/src/main/java/com/gs/collections/impl/utility/Iterate.java:1674-1696 | the mapped elements follow the target's own |
| Iterate.CollectInt | collections/src/main/java/com/gs/collections/impl/utility/Iterate.java:1416-1437 | the int values in order |
| Iterate.CollectIntInto | collections/src/main/java/com/gs/collections/impl/utility/Iterate.java:1453-1475 | the int values follow the target's own |
| Iterate.CollectWith | collections/src/main/java/com/gs/collections/impl/utility/Iterate.java:1728-1760 | the elements mapped with the parameter; the chain tests List, not RandomAccess |
| Iterate.CollectWithInto | collections/src/main/java/com/gs/collections/impl/utility/Iterate.java:1765-1788 | as collectWith, after the target's own |
| Iterate.CollectIf | collections/src/main/java/com/gs/collections/impl/utility/Iterate.java:486-516 | the selected elements, mapped |
| Iterate.CollectIfInto | collections/src/main/java/com/gs/collections/impl/utility/Iterate.java:521-544 | as collectIf, after the target's own |
| Iterate.FlatCollect | collections/src/main/java/com/gs/collections/impl/utility/Iterate.java:1628-1658 | the mapped sequences concatenated in order |
| Iterate.FlatCollectInto | collections/src/main/java/com/gs/collections/impl/utility/Iterate.java:1701-1723 | as flatCollect, after the target's own |
| Iterate.Flatten | collections/src/main/java/com/gs/collections/impl/utility/Iterate.java:1796-1799 | the inner sequences concatenated |
| Iterate.FlattenInto | collections/src/main/java/com/gs/collections/impl/utility/Iterate.java:1804-1807 | as flatten, after the target's own |
| Iterate.GetFirst | collections/src/main/java/com/gs/collections/impl/utility/Iterate.java:1819-1842 | none exactly for an empty source, otherwise the first element |
| Iterate.GetLast | collections/src/main/java/com/gs/collections/impl/utility/Iterate.java:1882-1905 | none exactly for an empty source, otherwise the last element |
| Iterate.GetOnly | collections/src/main/java/com/gs/collections/impl/utility/Iterate.java:2793-2800 | null, and a source without exactly one element, are rejected; otherwise that element |
| Iterate.Detect | collections/src/main/java/com/gs/collections/impl/utility/Iterate.java:1921-1940 | none exactly when nothing matches, otherwise the first match |
| Iterate.DetectWith | collections/src/main/java/com/gs/collections/impl/utility/Iterate.java:1956-1978 | as detect, with the parameter |
| Iterate.DetectIfNone | collections/src/main/java/com/gs/collections/impl/utility/Iterate.java:1984-1988 | ifNone when nothing matches or the match is null, otherwise the first match |
| Iterate.DetectWithIfNone | collections/src/main/java/com/gs/collections/impl/utility/Iterate.java:1994-2002 | null is rejected; `ifNone` when nothing matches; otherwise the first match, or `ifNone` when that element is null |
| Iterate.DetectIndex | collections/src/main/java/com/gs/collections/impl/utility/Iterate.java:2007-2022 | the first matching index, -1 exactly when nothing matches |
| Iterate.DetectIndexWith | collections/src/main/java/com/gs/collections/impl/utility/Iterate.java:2027-2045 | as detectIndex, with the parameter |
| Iterate.AnySatisfy | collections/src/main/java/com/gs/collections/impl/utility/Iterate.java:2291-2310 | true exactly when some element satisfies the predicate |
| Iterate.AnySatisfyWith | collections/src/main/java/com/gs/collections/impl/utility/Iterate.java:2316-2338 | as anySatisfy, with the parameter |
| Iterate.AllSatisfy | collections/src/main/java/com/gs/collections/impl/utility/Iterate.java:2344-2363 | true exactly when every element satisfies the predicate |
| Iterate.AllSatisfyWith | collections/src/main/java/com/gs/collections/impl/utility/Iterate.java:2368-2390 | as allSatisfy, with the parameter |
| Iterate.NoneSatisfy | collections/src/main/java/com/gs/collections/impl/utility/Iterate.java:2396-2415 | true exactly when no element satisfies the predicate |
| Iterate.NoneSatisfyWith | collections/src/main/java/com/gs/collections/impl/utility/Iterate.java:2421-2443 | as noneSatisfy, with the parameter |
| Iterate.InjectInto | collections/src/main/java/com/gs/collections/impl/utility/Iterate.java:2050-2072 | the seed for an empty source; otherwise the function applied to the fold of all but the last element and the last element |
| Iterate.InjectIntoWith | collections/src/main/java/com/gs/collections/impl/utility/Iterate.java:2262-2285 | the left fold with the parameter |
| Iterate.WrapLong | collections/src/main/java/com/gs/collections/impl/utility/Iterate.java:2185-2220 | brings an integer into the Java long range, congruent modulo 2^64 |
| Iterate.LongSumWraps | collections/src/main/java/com/gs/collections/impl/utility/Iterate.java:2185-2220 | adding into a long at every step equals wrapping the exact sum once |
| Iterate.SumOfInt | collections/src/main/java/com/gs/collections/impl/utility/Iterate.java:2185-2200 | the exact sum wrapped to a Java long |
| Iterate.SumOfLong | collections/src/main/java/com/gs/collections/impl/utility/Iterate.java:2205-2220 | the exact sum wrapped to a Java long |
| Iterate.GroupBy | collections/src/main/java/com/gs/collections/impl/utility/Iterate.java:2590-2615 | keys are exactly those of some element, and each group holds the elements with that key, in order |
| Iterate.GroupByInto | collections/src/main/java/com/gs/collections/impl/utility/Iterate.java:2620-2642 | each group gains the elements with that key after what the target held |
| Iterate.GroupByEach | collections/src/main/java/com/gs/collections/impl/utility/Iterate.java:2703-2728 | each key's group holds, in order, every element once per occurrence of that key among its keys, and the keys are exactly those some element produces |
| Iterate.GroupByEachInto | collections/src/main/java/com/gs/collections/impl/utility/Iterate.java:2733-2755 | as groupByEach, after what the target already held under each key |
| Iterate.AggregateBy | collections/src/main/java/com/gs/collections/impl/utility/Iterate.java:2675-2698 | one entry per key of groupBy, folded from the zero value over that key's elements |
| Iterate.AggregateInPlaceBy | collections/src/main/java/com/gs/collections/impl/utility/Iterate.java:2647-2670 | as aggregateBy, with the in-place update seen as a function |
| Iterate.Zip | collections/src/main/java/com/gs/collections/impl/utility/Iterate.java:2805-2824 | pairs by position, as long as the shorter side |
| Iterate.ZipInto | collections/src/main/java/com/gs/collections/impl/utility/Iterate.java:2829-2851 | the pairs follow the target's own |
| Iterate.ZipWithIndex | collections/src/main/java/com/gs/collections/impl/utility/Iterate.java:2856-2883 | each element with its position |
| Iterate.ZipWithIndexInto | collections/src/main/java/com/gs/collections/impl/utility/Iterate.java:2888-2909 | the indexed pairs follow the target's own |
| Iterate.Chunk | collections/src/main/java/com/gs/collections/impl/utility/Iterate.java:2914-2925 | null is rejected and a non-positive size is assumed rejected by the engine; the chunks concatenate back to the source and none is longer than `size` |
| Iterate.MinBy | collections/src/main/java/com/gs/collections/impl/utility/Iterate.java:3014-3029 | an empty source has no result; otherwise the first element with the least key |
| Iterate.MaxBy | collections/src/main/java/com/gs/collections/impl/utility/Iterate.java:2997-3012 | an empty source has no result; otherwise the first element with the greatest key |
| Iterate.IsEmpty | collections/src/main/java/com/gs/collections/impl/utility/Iterate.java:1847-1862 | null is empty; otherwise true exactly when there are no elements |
| Iterate.NotEmpty | collections/src/main/java/com/gs/collections/impl/utility/Iterate.java:1867-1870 | true exactly for a non-null source with an element |
| Iterate.SizeOf | collections/src/main/java/com/gs/collections/impl/utility/Iterate.java:2517-2528 | null is rejected; otherwise the number of elements, with Collection tested before RichIterable |
| Iterate.Contains | collections/src/main/java/com/gs/collections/impl/utility/Iterate.java:2534-2545 | true exactly when an equal element is present |
| Iterate.ToSortedList | collections/src/main/java/com/gs/collections/impl/utility/Iterate.java:2500-2511 | a permutation of the source that is sorted and stable under a valid comparator |
| IterateLaws.RoutesAgreeWithRoute | collections/src/main/java/com/gs/collections/impl/utility/Iterate.java:110-132 | every dispatching operation takes exactly the strategy the chain walk selects |
| IterateLaws.SelectRejectComplement | collections/src/main/java/com/gs/collections/impl/utility/Iterate.java:219-349 | select and reject take the same route and split the source; partition returns both halves |
| IterateLaws.CountLaws | collections/src/main/java/com/gs/collections/impl/utility/Iterate.java:431-450 | count equals the size of select, and count plus the size of reject is sizeOf |
| IterateLaws.SatisfyLaws | collections/src/main/java/com/gs/collections/impl/utility/Iterate.java:2291-2415 | the three quantifiers are mutually dual, and anySatisfy holds exactly when detect and detectIndex find a match |
| IterateLaws.SatisfyEmpty | collections/src/main/java/com/gs/collections/impl/utility/Iterate.java:2287-2395 | over an empty source anySatisfy is false, allSatisfy and noneSatisfy are true, and detect finds nothing |
| IterateLaws.DetectAtIndex | collections/src/main/java/com/gs/collections/impl/utility/Iterate.java:1921-2022 | detect returns the element at the index detectIndex reports |
| IterateLaws.DetectIfNoneIsDetect | collections/src/main/java/com/gs/collections/impl/utility/Iterate.java:1984-1988 | detectIfNone is ifNone when detect finds nothing or a null element, and the detected element otherwise |
| IterateLaws.TakeDropSplitSource | collections/src/main/java/com/gs/collections/impl/utility/Iterate.java:623-666 | take and drop with one count split the source, for every count |
| IterateLaws.CollectIfIsCollectOfSelect | collections/src/main/java/com/gs/collections/impl/utility/Iterate.java:486-516 | collectIf is collect over what select keeps |
| IterateLaws.FlatCollectSingletons | collections/src/main/java/com/gs/collections/impl/utility/Iterate.java:1628-1658 | flatCollect with singleton results is collect |
| IterateLaws.GroupByEachOneKey | collections/src/main/java/com/gs/collections/impl/utility/Iterate.java:2703-2728 | groupByEach with one key per element is groupBy |
| IterateLaws.ChunkRestores | collections/src/main/java/com/gs/collections/impl/utility/Iterate.java:2914-2925 | chunks concatenate back to the source, and all but the last are full |
| IterateLaws.EmptinessLaws | collections/src/main/java/com/gs/collections/impl/utility/Iterate.java:1819-1870 | notEmpty is the negation of isEmpty; null is empty but rejected by sizeOf, getFirst and getLast; otherwise isEmpty agrees with sizeOf, getFirst and getLast |
| IterateLaws.SingletonEnds | collections/src/main/java/com/gs/collections/impl/utility/Iterate.java:1819-1905 | on a one-element source getFirst and getLast give getOnly's element |
| IterateLaws.ContainsIsDetect | collections/src/main/java/com/gs/collections/impl/utility/Iterate.java:2534-2545 | contains holds exactly when detect finds an equal element |
| IterateLaws.MinByLeast | collections/src/main/java/com/gs/collections/impl/utility/Iterate.java:3014-3029 | minBy picks a source element whose key no element undercuts |
| IterateLaws.RichChainsRanked | collections/src/main/java/com/gs/collections/impl/utility/Iterate.java:110-132 | the chains that open with a rich-protocol test follow the precedence order |
| IterateLaws.RichEngineChainsRanked | collections/src/main/java/com/gs/collections/impl/utility/Iterate.java:1728-1760 | so do the chains of collectWith, the sums, chunk and minBy/maxBy, which go from the rich protocol to the list engines |
| IterateLaws.SpeciesChainRanked | collections/src/main/java/com/gs/collections/impl/utility/Iterate.java:219-245 | the select chain follows the precedence order |
| IterateLaws.EngineChainsRanked | collections/src/main/java/com/gs/collections/impl/utility/Iterate.java:623-666 | the take, drop, detectIndex and getOnly chains follow the precedence order |
| IterateLaws.EndChainsRanked | collections/src/main/java/com/gs/collections/impl/utility/Iterate.java:1819-1905 | the getFirst and getLast chains follow the precedence order |
| IterateLaws.QueryChainsRanked | collections/src/main/java/com/gs/collections/impl/utility/Iterate.java:716-757 | the isEmpty and sortThis chains follow the precedence order |
| IterateLaws.SizeChainUnranked | collections/src/main/java/com/gs/collections/impl/utility/Iterate.java:2517-2528 | sizeOf's chain is the exception to the precedence order |
| IterateLaws.SelectPrefersMostSpecific | collections/src/main/java/com/gs/collections/impl/utility/Iterate.java:219-245 | select on a source with several capabilities takes the highest-ranked strategy it qualifies for |
| IterateLaws.NativeForMutableCollections | collections/src/main/java/com/gs/collections/impl/utility/Iterate.java:110-132 | a library collection runs every operation whose chain opens with a rich-protocol test natively |
| IterateLaws.NeverNative | collections/src/main/java/com/gs/collections/impl/utility/Iterate.java:623-666 | take, drop and detectIndex never run natively |
| IterateLaws.ArrayListRoutes | collections/src/main/java/com/gs/collections/impl/utility/Iterate.java:655-666 | a java.util.ArrayList uses the ArrayList engine where a chain has one; drop treats it as random access, sumOf as a list, sizeOf as a Collection |
| IterateLaws.SizeOfPrefersCollection | collections/src/main/java/com/gs/collections/impl/utility/Iterate.java:2517-2528 | sizeOf asks a Collection for its size even when it is rich, while isEmpty asks a rich one natively |
| IterateLaws.GetFirstOfSortedSet | collections/src/main/java/com/gs/collections/impl/utility/Iterate.java:1819-1842 | an empty sorted set falls through to the Collection branch; a non-empty one is asked for `first()` |
| IterateLaws.GetLastOfLinkedList | collections/src/main/java/com/gs/collections/impl/utility/Iterate.java:1882-1905 | an empty LinkedList falls back to plain traversal; a non-empty one is asked for `getLast()` |
| IterateLaws.RemoveIfNullForPlainIterables | collections/src/main/java/com/gs/collections/impl/utility/Iterate.java:794-822 | removeIf answers null exactly for a source that is not a Collection |
| IterateStateful.JavaCollection.constructor | collections/src/main/java/com/gs/collections/impl/utility/Iterate.java:716-757 | a collection object of fixed runtime type with the given elements |
| IterateStateful.SortThis | collections/src/main/java/com/gs/collections/impl/utility/Iterate.java:739-757 | null fails in size(); otherwise the same list is returned, routed by first match, holding the stable sort of its old elements, which is a permutation, sorted under a valid comparator, and unchanged for at most one element |
| IterateStateful.SortThisNatural | collections/src/main/java/com/gs/collections/impl/utility/Iterate.java:716-734 | as sortThis with the elements' natural order |
| IterateStateful.SortThisWith | collections/src/main/java/com/gs/collections/impl/utility/Iterate.java:762-780 | sorts by the comparator built from the predicate; under a strict weak order no element sorts before an earlier one |
| IterateStateful.SortThisBy | collections/src/main/java/com/gs/collections/impl/utility/Iterate.java:786-789 | sorts by the derived keys, which then never decrease |
| IterateStateful.RemoveIf | collections/src/main/java/com/gs/collections/impl/utility/Iterate.java:794-822 | null is rejected; the matching elements are removed in place; the collection is returned, or null for a plain Iterable |
| IterateStateful.RemoveIfWith | collections/src/main/java/com/gs/collections/impl/utility/Iterate.java:827-858 | as removeIf, with the parameter |
| IterateStateful.AddOne | collections/src/main/java/com/gs/collections/impl/utility/Iterate.java:973-986 | a list appends; a set appends only an element it lacks |
| IterateStateful.AddAllToList | collections/src/main/java/com/gs/collections/impl/utility/Iterate.java:973-986 | a list target ends with its own elements followed by the source's |
| IterateStateful.AddAllToSet | collections/src/main/java/com/gs/collections/impl/utility/Iterate.java:973-986 | a set target keeps its elements, gains exactly the missing ones, and never repeats one |
| IterateStateful.AddAllHas | collections/src/main/java/com/gs/collections/impl/utility/Iterate.java:973-986 | after adding to a set, an element is present exactly when it was before or is in the source |
| IterateStateful.SetTargetChanged | collections/src/main/java/com/gs/collections/impl/utility/Iterate.java:973-986 | adding to a set reports a change exactly when the source held an element the set lacked |
| IterateStateful.TargetCollection.Add | collections/src/main/java/com/gs/collections/impl/utility/Iterate.java:973-986 | add reports whether the size changed |
| IterateStateful.AddAllIterable | collections/src/main/java/com/gs/collections/impl/utility/Iterate.java:973-986 | null raises NullPointerException and leaves the target alone; otherwise every element is added and the result says whether the size changed |
| IterateStateful.AddAllTo | collections/src/main/java/com/gs/collections/impl/utility/Iterate.java:967-971 | addAllIterable, then the target itself |
| IterateStateful.JavaMap.Put | collections/src/main/java/com/gs/collections/impl/utility/Iterate.java:2474-2495 | put replaces the value of a present key |
| IterateStateful.PutAllEntries | collections/src/main/java/com/gs/collections/impl/utility/Iterate.java:2474-2495 | a key is present when it was or some element has it; its value is that of the last element with the key, and other keys keep their values |
| IterateStateful.AddToMap | collections/src/main/java/com/gs/collections/impl/utility/Iterate.java:2487-2495 | null is rejected by forEach; otherwise every element is put in order and the same map returned |
| IterateStateful.AddToMapByKey | collections/src/main/java/com/gs/collections/impl/utility/Iterate.java:2474-2481 | as addToMap, with the elements as values |
| IterateStateful.ToMap | collections/src/main/java/com/gs/collections/impl/utility/Iterate.java:2462-2468 | addToMap into a new empty map |
| IterateStateful.ToMapByKey | collections/src/main/java/com/gs/collections/impl/utility/Iterate.java:2449-2456 | addToMap into a new empty map, with the elements as values |
| IterateStateful.Min | collections/src/main/java/com/gs/collections/impl/utility/Iterate.java:2760-2765 | null is rejected, an empty source has no minimum, otherwise the first element that no later one undercuts |
| IterateStateful.Max | collections/src/main/java/com/gs/collections/impl/utility/Iterate.java:2770-2775 | null is rejected, an empty source has no maximum, otherwise the first element that no later one exceeds |
| IterateStateful.MinNatural | collections/src/main/java/com/gs/collections/impl/utility/Iterate.java:2780-2783 | the least integer of a non-empty source |
| IterateStateful.MaxNatural | collections/src/main/java/com/gs/collections/impl/utility/Iterate.java:2788-2791 | the greatest integer of a non-empty source |
| Bytes.Narrow | unit-tests/src/test/java/com/gs/collections/impl/math/MutableByte.java:48-64 | the `(byte)` cast: congruent modulo 256, in [-128, 127], the identity on bytes |
| Bytes.JavaDiv | unit-tests/src/test/java/com/gs/collections/impl/math/MutableByte.java:66-70 | division truncating toward zero: the magnitude is the quotient of the magnitudes, and the sign follows the operands |
| Bytes.NarrowAddAssociates | unit-tests/src/test/java/com/gs/collections/impl/math/MutableByte.java:48-52 | wrapping an intermediate sum does not change the wrapped total |
| Bytes.AddThenSubtract | unit-tests/src/test/java/com/gs/collections/impl/math/MutableByte.java:48-58 | adding then subtracting a byte restores the value, across a wrap too |
| Bytes.DivideOverflow | unit-tests/src/test/java/com/gs/collections/impl/math/MutableByte.java:66-70 | -128 / -1 wraps back to -128 |
| Bytes.DivideNoOverflow | unit-tests/src/test/java/com/gs/collections/impl/math/MutableByte.java:66-70 | every other byte quotient needs no wrap |
| Bytes.MutableByte.constructor | unit-tests/src/test/java/com/gs/collections/impl/math/MutableByte.java:8-11 | the cell holds the given value |
| Bytes.MutableByte.Default | unit-tests/src/test/java/com/gs/collections/impl/math/MutableByte.java:13-16 | the cell starts at zero |
| Bytes.MutableByte.Equals | unit-tests/src/test/java/com/gs/collections/impl/math/MutableByte.java:18-30 | true exactly for another MutableByte with the same value |
| Bytes.MutableByte.HashCode | unit-tests/src/test/java/com/gs/collections/impl/math/MutableByte.java:32-36 | the int value |
| Bytes.MutableByte.CompareTo | unit-tests/src/test/java/com/gs/collections/impl/math/MutableByte.java:38-41 | negative, zero or positive as the value is below, equal to or above the other's; zero exactly for equal cells |
| Bytes.MutableByte.SetValue | unit-tests/src/test/java/com/gs/collections/impl/math/MutableByte.java:43-46 | the value becomes the argument |
| Bytes.MutableByte.Add | unit-tests/src/test/java/com/gs/collections/impl/math/MutableByte.java:48-52 | the value becomes the sum wrapped into a byte, and the cell itself is returned |
| Bytes.MutableByte.Subtract | unit-tests/src/test/java/com/gs/collections/impl/math/MutableByte.java:54-58 | the value becomes the difference wrapped into a byte |
| Bytes.MutableByte.Multiply | unit-tests/src/test/java/com/gs/collections/impl/math/MutableByte.java:60-64 | the value becomes the product wrapped into a byte |
| Bytes.MutableByte.Divide | unit-tests/src/test/java/com/gs/collections/impl/math/MutableByte.java:66-70 | zero raises ArithmeticException and leaves the value; otherwise the truncated quotient, wrapped, so -128 / -1 stays -128 |
| Bytes.MutableByte.Min | unit-tests/src/test/java/com/gs/collections/impl/math/MutableByte.java:72-76 | the value becomes the smaller of the two operands |
| Bytes.MutableByte.Max | unit-tests/src/test/java/com/gs/collections/impl/math/MutableByte.java:78-82 | the value becomes the larger of the two operands |
| Bytes.MutableByte.Abs | unit-tests/src/test/java/com/gs/collections/impl/math/MutableByte.java:84-88 | the value becomes its magnitude, except that -128 stays -128 |
| Bytes.MutableByte.ByteValue | unit-tests/src/test/java/com/gs/collections/impl/math/MutableByte.java:90-93 | the value itself (toByte and byteValue, lines 119-123) |
| Bytes.MutableByte.IntValue | unit-tests/src/test/java/com/gs/collections/impl/math/MutableByte.java:95-99 | the value, sign-extended |
| Bytes.MutableByte.LongValue | unit-tests/src/test/java/com/gs/collections/impl/math/MutableByte.java:101-105 | the value, sign-extended |
| Bytes.SetThenRead | unit-tests/src/test/java/com/gs/collections/impl/math/MutableByte.java:43-46 | after setValue(b), byteValue, intValue and longValue all give b |
| Bytes.HashCodeConsistent | unit-tests/src/test/java/com/gs/collections/impl/math/MutableByte.java:18-36 | equal cells have equal hash codes |
| Bytes.CompareToAntisymmetric | unit-tests/src/test/java/com/gs/collections/impl/math/MutableByte.java:38-41 | compareTo is antisymmetric and zero exactly for equal cells |

## Left out

- The engine classes are not part of this model. These are `ArrayListIterate`,
  `RandomAccessListIterate`, `ListIterate`, `IterableIterate`,
  `DefaultSpeciesNewStrategy`, `MapCollectProcedure`,
  `Min/MaxComparatorProcedure`, `FastList`, `UnifiedMap` and
  `FastListMultimap`. Each engine is its reference function on sequences.
  Every branch is therefore shown to give the reference result, and nothing
  is claimed about the engines' own algorithms or cost.
- Iterate.Contains: a null argument reaches `IterableIterate.detectIndex`,
  which is outside this model. It is assumed to raise NullPointerException.
- Iterate.GetOnly: the engines' `getOnly` is outside this model. A non-null
  source without exactly one element is assumed to raise
  IllegalArgumentException.
- Iterate.Take: the engines' `take` and `drop` are outside this model. A
  negative count is assumed to take nothing, and for Iterate.Drop to drop
  nothing; drop's documentation says the same for a non-positive count.
- Iterate.MinBy: among equal keys the first is kept, and an empty source
  gives NoSuchElementException. Both are taken from the `min`/`max` procedures
  as modelled here. Iterate.MaxBy is modelled the same way.
- IterateStateful.Min: the procedures' `getResult` is outside this model. An
  empty source is assumed to raise NoSuchElementException.
  IterateStateful.Max is modelled the same way.
- Iterate.ToSortedList: requires a non-null source. What
  `FastList.newList(null)` does is outside this model.
- IterateStateful.SortThis: for a comparator that breaks the Comparator
  contract, the model still gives the insertion-sort order. The JDK sort may
  throw or order differently there.
- Iterate.Chunk: the engines' `chunk` is outside this model, and `Iterate`
  only delegates to it. A non-positive size is assumed to raise
  IllegalArgumentException. Sequences.Chunk states the same assumption.
- Iterate.Collect: results are modelled as ordered sequences, so a result
  of set species keeps equal values that Java would merge. A `MutableSet`
  answers `collect` natively with a set, and a `java.util.Set` reaching the
  `Collection` branch is collected into a new collection of its own species.
  For such a source, the length-preserving contract does not describe Java's
  result. The species is not part of the model's `Source`.
- Iterate.CollectInt: a set-species result is modelled as a sequence, as for
  Iterate.Collect.
- Iterate.CollectWith: a set-species result is modelled as a sequence, as for
  Iterate.Collect.
- Iterate.CollectIf: a set-species result is modelled as a sequence, as for
  Iterate.Collect.
- Iterate.FlatCollect: a set-species result is modelled as a sequence, as for
  Iterate.Collect.
- Iterate.Flatten: a set-species result is modelled as a sequence, as for
  Iterate.Collect.
- Iterate.GroupByEach: a native `MutableSet` builds a set multimap, which files
  an element once under a key however often its key function returns that
  key. The model files it once per occurrence, as a list multimap does.
- Iterate.Select, Iterate.Reject and Iterate.Partition keep the source's
  elements, so a set species changes nothing there: the elements of a set are
  already distinct.
- Target collections and multimaps are sequences that the result is appended
  to, and maps are Dafny maps. Aliasing between a source and its target is not
  modelled, and the value is computed as if they were distinct.
- Iterate.AggregateInPlaceBy: the in-place mutation of the aggregated value is
  modelled as a function from the old value to the new one.
- Short-circuiting is not modelled. A procedure, predicate or function is
  pure, so how many times it is called cannot be seen.
- selectInstancesOf and toArray are not modelled. They depend on runtime
  `Class` objects and JVM array types.
- makeString and appendString are not modelled, and neither is
  `MutableByte.toString`. They do I/O through `Appendable` and depend on the
  elements' `toString`.
- Floating point is not modelled. This covers the float and double overloads
  (`collectFloat`, `collectDouble`, `sumOfFloat`, `sumOfDouble`, the
  float/double `injectInto`) and `MutableByte.floatValue`/`doubleValue`.
- Of the primitive `collectX` and the primitive `injectInto` overloads, only
  `collectInt` is modelled. The others repeat that dispatch shape.
- Iterate.SumOfInt: the sum is wrapped to a Java `long`, and an `int` input is
  not range-checked. Iterate.SumOfLong takes unbounded inputs too.
- Unordered sets have no defined traversal order. Every source here is an
  ordered sequence.
- `SortedSetMultimap` is not modelled. It is an interface without behaviour.
- IterateStateful.MinNatural: natural order is modelled on integers only.
  IterateStateful.MaxNatural likewise.
