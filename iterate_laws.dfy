/** Properties that relate the operations of `Iterate` to one another, and the
    precedence the dispatch chains give to the capabilities of a source. */
module IterateLaws {
  import opened Lang
  import opened Dispatch
  import Sequences
  import opened Sorting
  import opened Iterate

  /** A dispatching operation takes exactly the strategy the chain walk selects. */
  lemma RoutesAgreeWithRoute<T, R>(c: Chain, s: Source<T>, r: Result<Routed<R>>)
    requires s.Instance? && Routes(c, s, r)
    ensures r.Ok? && r.value.strategy == Route(c, s)
  {
    RouteIsFirstMatch(c, s);
    FirstMatchUnique(c, s, r.value.strategy, Route(c, s));
  }

  // --------------------------------------------------- relations between ops

  /** select and reject take the same route and split the source between them;
      partition returns both halves at once. */
  lemma SelectRejectComplement<T>(s: Source<T>, p: T -> bool)
    requires s.Instance?
    ensures Select(s, p).value.strategy == Reject(s, p).value.strategy
    ensures multiset(Select(s, p).value.value) + multiset(Reject(s, p).value.value) == multiset(s.elems)
    ensures Partition(s, p).value.value == (Select(s, p).value.value, Reject(s, p).value.value)
  {
    RoutesAgreeWithRoute(SpeciesChain, s, Select(s, p));
    RoutesAgreeWithRoute(SpeciesChain, s, Reject(s, p));
    Sequences.PartitionIsExact(s.elems, p);
  }

  /** count agrees with the size of select, and the counts of a predicate and of
      its negation add up to sizeOf. */
  lemma CountLaws<T>(s: Source<T>, p: T -> bool)
    requires s.Instance?
    ensures Count(s, p).value.value == |Select(s, p).value.value|
    ensures Count(s, p).value.value + |Reject(s, p).value.value| == SizeOf(s).value.value
  {
    Sequences.CountComplement(s.elems, p);
  }

  /** anySatisfy, allSatisfy and noneSatisfy are each other's duals, and
      anySatisfy holds exactly when detect and detectIndex find something. */
  lemma SatisfyLaws<T>(s: Source<T>, p: T -> bool)
    requires s.Instance?
    ensures NoneSatisfy(s, p).value.value == !AnySatisfy(s, p).value.value
    ensures AllSatisfy(s, p).value.value == NoneSatisfy(s, x => !p(x)).value.value
    ensures AnySatisfy(s, p).value.value <==> Detect(s, p).value.value.Some?
    ensures AnySatisfy(s, p).value.value <==> DetectIndex(s, p).value.value >= 0
  {
  }

  /** Over an empty source nothing is satisfied and everything is. */
  lemma SatisfyEmpty<T>(s: Source<T>, p: T -> bool)
    requires s.Instance? && s.elems == []
    ensures !AnySatisfy(s, p).value.value
    ensures AllSatisfy(s, p).value.value && NoneSatisfy(s, p).value.value
    ensures Detect(s, p).value.value.None? && DetectIndex(s, p).value.value == -1
  {
  }

  /** detect returns the element at the index detectIndex reports. */
  lemma DetectAtIndex<T>(s: Source<T>, p: T -> bool)
    requires s.Instance?
    ensures DetectIndex(s, p).value.value >= 0 ==>
              Detect(s, p).value.value == Some(s.elems[DetectIndex(s, p).value.value])
  {
  }

  /** detectIfNone gives `ifNone` when detect finds nothing or finds a null
      element, and the detected element otherwise. */
  lemma DetectIfNoneIsDetect<T>(s: Source<Option<T>>, p: Option<T> -> bool, ifNone: Option<T>)
    requires s.Instance?
    ensures Detect(s, p).value.value.None? ==> DetectIfNone(s, p, ifNone).value == ifNone
    ensures Detect(s, p).value.value == Some(None) ==> DetectIfNone(s, p, ifNone).value == ifNone
    ensures forall v :: Detect(s, p).value.value == Some(Some(v)) ==> DetectIfNone(s, p, ifNone).value == Some(v)
  {
  }

  /** take and drop with the same count split the source at one position, for
      every count, negative ones and ones past the end included. */
  lemma TakeDropSplitSource<T>(s: Source<T>, count: int)
    requires s.Instance?
    ensures Take(s, count).value.value + Drop(s, count).value.value == s.elems
    ensures count <= 0 ==> Take(s, count).value.value == [] && Drop(s, count).value.value == s.elems
    ensures count >= |s.elems| ==> Take(s, count).value.value == s.elems && Drop(s, count).value.value == []
  {
    Sequences.TakeDropSplit(s.elems, count);
  }

  /** collectIf is collect applied to what select keeps. */
  lemma {:induction false} CollectIfIsCollectOfSelect<T, V>(s: Source<T>, p: T -> bool, f: T -> V)
    requires s.Instance?
    ensures CollectIf(s, p, f).value.value == Sequences.Map(Select(s, p).value.value, f)
  {
    FilterThenMap(s.elems, p, f);
  }

  lemma {:induction false} FilterThenMap<T, V>(xs: seq<T>, p: T -> bool, f: T -> V)
    ensures Sequences.Map(Sequences.Filter(xs, p), f) == Sequences.FlatMap(xs, x => if p(x) then [f(x)] else [])
    decreases xs
  {
    if xs != [] {
      FilterThenMap(xs[1..], p, f);
      if p(xs[0]) {
        assert Sequences.Filter(xs, p) == [xs[0]] + Sequences.Filter(xs[1..], p);
        assert Sequences.Map(Sequences.Filter(xs, p), f) == [f(xs[0])] + Sequences.Map(Sequences.Filter(xs[1..], p), f);
      } else {
        assert Sequences.Filter(xs, p) == Sequences.Filter(xs[1..], p);
      }
    }
  }

  /** flatCollect with singleton results is collect. */
  lemma FlatCollectSingletons<T, V>(s: Source<T>, f: T -> V)
    requires s.Instance?
    ensures FlatCollect(s, x => [f(x)]).value.value == Collect(s, f).value.value
  {
    Sequences.FlatMapSingletons(s.elems, f);
  }

  /** groupByEach with exactly one key per element is groupBy. */
  lemma GroupByEachOneKey<T, K(!new)>(s: Source<T>, key: T -> K)
    requires s.Instance?
    ensures GroupByEach(s, x => [key(x)]).value.value == Sequences.GroupBy(s.elems, key)
  {
    Sequences.GroupByEachGeneralizesGroupBy(s.elems, key);
  }

  /** chunk never loses, duplicates or reorders an element, and every chunk but
      the last is full. */
  lemma ChunkRestores<T>(s: Source<T>, size: int)
    requires s.Instance? && size > 0
    ensures Sequences.Concat(Chunk(s, size).value.value) == s.elems
    ensures forall i :: 0 <= i < |Chunk(s, size).value.value| - 1 ==> |Chunk(s, size).value.value[i]| == size
  {
  }

  /** isEmpty, notEmpty, sizeOf, getFirst and getLast agree about a non-null
      source; null is empty to isEmpty but rejected by sizeOf and getFirst. */
  lemma EmptinessLaws<T>(s: Source<T>)
    ensures NotEmpty(s) == !IsEmpty(s).value
    ensures s.Null? ==> IsEmpty(s).value && SizeOf(s).Err? && GetFirst(s).Err? && GetLast(s).Err?
    ensures s.Instance? ==> (IsEmpty(s).value <==> SizeOf(s).value.value == 0)
    ensures s.Instance? ==> (IsEmpty(s).value <==> GetFirst(s).value.value.None?)
    ensures s.Instance? ==> (IsEmpty(s).value <==> GetLast(s).value.value.None?)
  {
  }

  /** getFirst and getLast of a one-element source are its only element. */
  lemma SingletonEnds<T>(s: Source<T>)
    requires s.Instance? && |s.elems| == 1
    ensures GetFirst(s).value.value == Some(GetOnly(s).value.value)
    ensures GetLast(s).value.value == Some(GetOnly(s).value.value)
  {
  }

  /** contains holds exactly when detect finds an equal element. */
  lemma ContainsIsDetect<T>(s: Source<T>, v: T)
    requires s.Instance?
    ensures Contains(s, v).value.value == Detect(s, x => x == v).value.value.Some?
  {
  }

  /** minBy never picks an element whose key some other element undercuts. */
  lemma MinByLeast<T(!new)>(s: Source<T>, key: T -> int)
    requires s.Instance? && s.elems != []
    ensures MinBy(s, key).value.value in s.elems
    ensures forall x :: x in s.elems ==> key(MinBy(s, key).value.value) <= key(x)
  {
    var m := MinBy(s, key).value.value;
    var cmp := KeyComparator(key);
    var k :| FirstMinimumAt(s.elems, cmp, k) && s.elems[k] == m;
    forall x | x in s.elems
      ensures key(m) <= key(x)
    {
      var j :| 0 <= j < |s.elems| && s.elems[j] == x;
      if j < k {
        assert cmp(s.elems[j], s.elems[k]) > 0;
      } else if j > k {
        assert cmp(s.elems[j], s.elems[k]) >= 0;
      }
    }
  }

  // ------------------------------------------------------------- precedence

  /** The chains opening with a rich-protocol test follow the precedence order. */
  lemma RichChainsRanked()
    ensures Ranked(InternalChain) && Ranked(MutableChain) && Ranked(RichChain)
  {
  }

  lemma RichEngineChainsRanked()
    ensures Ranked(CollectWithChain) && Ranked(SumOfChain) && Ranked(ChunkChain) && Ranked(ExtremeByChain)
  {
  }

  /** So do the chains of the operations that carry a special case. */
  lemma SpeciesChainRanked()
    ensures Ranked(SpeciesChain)
  {
    assert SpeciesChain.branches == [Branch(InstanceOf(MutableCollection), Native), ArrayListBranch, RandomAccessBranch, SpeciesBranch];
  }

  lemma EngineChainsRanked()
    ensures Ranked(TakeChain) && Ranked(DropChain) && Ranked(DetectIndexChain) && Ranked(GetOnlyChain)
  {
  }

  lemma EndChainsRanked()
    ensures Ranked(GetFirstChain) && Ranked(GetLastChain)
  {
  }

  lemma QueryChainsRanked()
    ensures Ranked(IsEmptyChain) && Ranked(SortThisChain)
  {
  }

  /** sizeOf's chain is the one exception: it tests Collection before the rich
      protocol. */
  lemma SizeChainUnranked()
    ensures !Ranked(SizeChain)
  {
    assert Rank(SizeChain.branches[0].strategy) > Rank(SizeChain.branches[1].strategy);
  }

  /** With the rich-protocol branch first, a source that qualifies for several
      strategies gets the most specific one: select on a source that is both an
      ArrayList and random access uses the ArrayList engine, never the random
      access one. */
  lemma SelectPrefersMostSpecific<T>(s: Source<T>, p: T -> bool)
    requires s.Instance?
    ensures forall i :: 0 <= i < |SpeciesChain.branches| && Passes(SpeciesChain.branches[i].test, s) ==>
              Rank(Select(s, p).value.strategy) <= Rank(SpeciesChain.branches[i].strategy)
  {
    SpeciesChainRanked();
    RouteHighestRanked(SpeciesChain, s);
    RoutesAgreeWithRoute(SpeciesChain, s, Select(s, p));
  }

  /** A library collection answers every operation whose chain opens with a
      rich-protocol test through its own method. */
  lemma NativeForMutableCollections<T>(s: Source<T>)
    requires s.Instance? && WellFormed(s.types) && MutableCollection in s.types
    ensures Route(InternalChain, s) == Native && Route(MutableChain, s) == Native
    ensures Route(RichChain, s) == Native && Route(SpeciesChain, s) == Native
    ensures Route(CollectWithChain, s) == Native && Route(GetFirstChain, s) == Native
    ensures Route(GetLastChain, s) == Native && Route(SumOfChain, s) == Native
    ensures Route(ChunkChain, s) == Native && Route(ExtremeByChain, s) == Native
    ensures Route(IsEmptyChain, s) == Native && Route(RemoveIfChain, s) == Native
  {
  }

  /** take, drop and detectIndex have no rich-protocol branch: even a library
      collection goes to an engine. */
  lemma NeverNative<T>(s: Source<T>)
    requires s.Instance?
    ensures Route(TakeChain, s) != Native && Route(DropChain, s) != Native
    ensures Route(DetectIndexChain, s) != Native
  {
    RouteIsFirstMatch(TakeChain, s);
    RouteIsFirstMatch(DropChain, s);
    RouteIsFirstMatch(DetectIndexChain, s);
  }

  /** A java.util.ArrayList: the ArrayList engine where a chain offers one; drop,
      which has none, treats it as a random-access list, and sumOf as a list. */
  lemma ArrayListRoutes<T>(s: Source<T>)
    requires s.Instance? && WellFormed(s.types) && ArrayList in s.types
    requires InternalIterable !in s.types && MutableList !in s.types
    ensures Route(InternalChain, s) == ArrayListEngine && Route(SpeciesChain, s) == ArrayListEngine
    ensures Route(TakeChain, s) == ArrayListEngine && Route(DetectIndexChain, s) == ArrayListEngine
    ensures Route(SortThisChain, s) == ArrayListEngine
    ensures Route(DropChain, s) == RandomAccessEngine && Route(GetLastChain, s) == RandomAccessEngine
    ensures Route(SumOfChain, s) == ListEngine
    ensures Route(SizeChain, s) == CollectionMethod
  {
  }

  /** sizeOf asks a collection for its size before the rich protocol, so a library
      collection reports its size as a java.util.Collection while isEmpty asks it
      natively. */
  lemma SizeOfPrefersCollection<T>(s: Source<T>)
    requires s.Instance? && Collection in s.types
    ensures SizeOf(s).value.strategy == CollectionMethod
    ensures RichIterable in s.types ==> IsEmpty(s).strategy == Native
  {
    RoutesAgreeWithRoute(SizeChain, s, SizeOf(s));
  }

  /** An empty sorted set is not asked for `first()`: getFirst falls through to
      the Collection branch and finds nothing; a non-empty one is. */
  lemma GetFirstOfSortedSet<T>(s: Source<T>)
    requires s.Instance? && SortedSet in s.types && Collection in s.types
    requires RichIterable !in s.types && List !in s.types
    ensures s.elems == [] ==> GetFirst(s).value == Routed(CollectionMethod, None)
    ensures s.elems != [] ==> GetFirst(s).value == Routed(SortedSetMethod, Some(s.elems[0]))
  {
    RoutesAgreeWithRoute(GetFirstChain, s, GetFirst(s));
    var c := GetFirstChain;
    assert !Passes(c.branches[0].test, s) && !Passes(c.branches[1].test, s);
    if s.elems == [] {
      assert !Passes(c.branches[2].test, s);
      RouteAt(c, s, 3);
    } else {
      RouteAt(c, s, 2);
    }
  }

  /** An empty LinkedList is not asked for `getLast()`: getLast falls back to
      plain traversal. */
  lemma GetLastOfLinkedList<T>(s: Source<T>)
    requires s.Instance? && LinkedList in s.types
    requires RichIterable !in s.types && RandomAccess !in s.types && SortedSet !in s.types
    ensures s.elems == [] ==> GetLast(s).value == Routed(IterableEngine, None)
    ensures s.elems != [] ==> GetLast(s).value == Routed(LinkedListMethod, Some(s.elems[|s.elems| - 1]))
  {
    RoutesAgreeWithRoute(GetLastChain, s, GetLast(s));
    var c := GetLastChain;
    assert !Passes(c.branches[0].test, s) && !Passes(c.branches[1].test, s) && !Passes(c.branches[2].test, s);
    if s.elems == [] {
      assert !Passes(c.branches[3].test, s);
      RouteFallback(c, s);
    } else {
      RouteAt(c, s, 3);
    }
  }

  /** removeIf answers null exactly for a source that is not a java.util.Collection. */
  lemma RemoveIfNullForPlainIterables<T>(s: Source<T>)
    requires s.Instance? && WellFormed(s.types)
    ensures NonePasses(RemoveIfChain, s) <==> Collection !in s.types
  {
    if Collection in s.types {
      assert Passes(RemoveIfChain.branches[3].test, s);
    }
  }
}
