/** Capability-directed dispatch: a Java argument of static type `Iterable` is
    classified by a fixed chain of `instanceof` tests, and the first test that
    holds chooses the strategy that runs the operation. */
module Dispatch {
  import opened Lang

  /** The library and JDK types that the dispatch chains test with `instanceof`. */
  datatype JavaType =
    | InternalIterable
    | RichIterable
    | MutableCollection
    | MutableList
    | ArrayList
    | RandomAccess
    | List
    | Collection
    | SortedSet
    | LinkedList

  /** An argument of static type `Iterable`: either `null`, or an instance whose
      runtime class implements exactly `types` and whose traversal order yields
      `elems`. */
  datatype Source<+T> = Null | Instance(types: set<JavaType>, elems: seq<T>)

  /** The subtype relations between the tested types: a runtime class that
      implements a type also implements its supertypes. Every `RandomAccess` branch
      casts to `List`, so a random-access source is taken to be a list. */
  predicate WellFormed(types: set<JavaType>) {
    && (MutableList in types ==> MutableCollection in types && List in types)
    && (MutableCollection in types ==> RichIterable in types && Collection in types)
    && (RichIterable in types ==> InternalIterable in types)
    && (ArrayList in types ==> RandomAccess in types && List in types)
    && (RandomAccess in types ==> List in types)
    && (LinkedList in types ==> List in types)
    && (List in types ==> Collection in types)
    && (SortedSet in types ==> Collection in types)
  }

  /** Who carries out the operation once the chain has classified the source. */
  datatype Strategy =
    | Native              // the source's own rich-protocol method
    | ArrayListEngine     // ArrayListIterate
    | RandomAccessEngine  // RandomAccessListIterate
    | ListEngine          // ListIterate
    | CollectionEngine    // IterableIterate, with a target chosen for a Collection source
    | CollectionMethod    // the source's own java.util.Collection method
    | SortedSetMethod     // SortedSet.first() or SortedSet.last()
    | LinkedListMethod    // LinkedList.getLast()
    | IterableEngine      // IterableIterate over a plain Iterable
    | JdkSort             // Collections.sort
    | NullSafe            // the answer given for null without dispatching

  /** The fixed precedence of the strategies, most specific first: the rich
      protocol, then the ArrayList engine, then the random-access and list engines,
      then collection-level strategies, then plain traversal. */
  function Rank(st: Strategy): nat {
    match st
    case Native => 0
    case ArrayListEngine => 1
    case RandomAccessEngine | ListEngine => 2
    case CollectionEngine | CollectionMethod | SortedSetMethod | LinkedListMethod => 3
    case IterableEngine | JdkSort | NullSafe => 4
  }

  /** One `if (iterable instanceof X)` test; the second form is the
      `instanceof X && !isEmpty()` test of getFirst and getLast. */
  datatype Test = InstanceOf(javaType: JavaType) | NonEmptyInstanceOf(javaType: JavaType)

  datatype Branch = Branch(test: Test, strategy: Strategy)

  /** An if-chain: the branches in source order, then the strategy taken by a
      non-null source that no branch accepts. */
  datatype Chain = Chain(branches: seq<Branch>, fallback: Strategy)

  predicate Passes<T>(t: Test, s: Source<T>)
    requires s.Instance?
  {
    match t
    case InstanceOf(ty) => ty in s.types
    case NonEmptyInstanceOf(ty) => ty in s.types && |s.elems| > 0
  }

  /** Walks the chain like the source's if-statements do. */
  function Route<T>(c: Chain, s: Source<T>): Strategy
    requires s.Instance?
    decreases |c.branches|
  {
    if c.branches == [] then c.fallback
    else if Passes(c.branches[0].test, s) then c.branches[0].strategy
    else Route(Chain(c.branches[1..], c.fallback), s)
  }

  /** Branch `i` is the first whose test the source passes. */
  ghost predicate FirstPassingAt<T>(c: Chain, s: Source<T>, i: int)
    requires s.Instance?
  {
    && 0 <= i < |c.branches|
    && Passes(c.branches[i].test, s)
    && forall j :: 0 <= j < i ==> !Passes(c.branches[j].test, s)
  }

  ghost predicate NonePasses<T>(c: Chain, s: Source<T>)
    requires s.Instance?
  {
    forall i :: 0 <= i < |c.branches| ==> !Passes(c.branches[i].test, s)
  }

  /** Declarative meaning of a chain: the strategy of the first branch whose test
      holds, or the fallback when none holds. */
  ghost predicate FirstMatch<T>(c: Chain, s: Source<T>, st: Strategy)
    requires s.Instance?
  {
    || (exists i :: FirstPassingAt(c, s, i) && st == c.branches[i].strategy)
    || (NonePasses(c, s) && st == c.fallback)
  }

  /** Route selects the first branch whose test holds. */
  lemma {:induction false} RouteIsFirstMatch<T>(c: Chain, s: Source<T>)
    requires s.Instance?
    ensures FirstMatch(c, s, Route(c, s))
    decreases |c.branches|
  {
    if c.branches == [] {
      assert NonePasses(c, s);
    } else if Passes(c.branches[0].test, s) {
      assert FirstPassingAt(c, s, 0);
    } else {
      var rest := Chain(c.branches[1..], c.fallback);
      RouteIsFirstMatch(rest, s);
      if i :| FirstPassingAt(rest, s, i) && Route(rest, s) == rest.branches[i].strategy {
        forall j | 0 <= j < i + 1
          ensures !Passes(c.branches[j].test, s)
        {
          if j > 0 {
            assert c.branches[j] == rest.branches[j - 1];
          }
        }
        assert FirstPassingAt(c, s, i + 1);
      } else {
        forall i | 0 <= i < |c.branches|
          ensures !Passes(c.branches[i].test, s)
        {
          if i > 0 {
            assert c.branches[i] == rest.branches[i - 1];
          }
        }
        assert NonePasses(c, s);
      }
    }
  }

  /** Exactly one strategy is selected: the first-match condition determines it. */
  lemma FirstMatchUnique<T>(c: Chain, s: Source<T>, a: Strategy, b: Strategy)
    requires s.Instance?
    requires FirstMatch(c, s, a) && FirstMatch(c, s, b)
    ensures a == b
  {
    forall i, k | FirstPassingAt(c, s, i) && FirstPassingAt(c, s, k)
      ensures i == k
    {
      assert !(i < k) && !(k < i);
    }
  }

  /** The strategy of the first passing branch is the one taken. */
  lemma RouteAt<T>(c: Chain, s: Source<T>, i: int)
    requires s.Instance? && FirstPassingAt(c, s, i)
    ensures Route(c, s) == c.branches[i].strategy
  {
    RouteIsFirstMatch(c, s);
    FirstMatchUnique(c, s, Route(c, s), c.branches[i].strategy);
  }

  /** The fallback is taken when no test holds. */
  lemma RouteFallback<T>(c: Chain, s: Source<T>)
    requires s.Instance? && NonePasses(c, s)
    ensures Route(c, s) == c.fallback
  {
    RouteIsFirstMatch(c, s);
    FirstMatchUnique(c, s, Route(c, s), c.fallback);
  }

  /** When no branch shares the fallback's strategy, the fallback is taken exactly
      when no test holds. */
  lemma FallbackIffNonePasses<T>(c: Chain, s: Source<T>)
    requires s.Instance?
    requires forall i :: 0 <= i < |c.branches| ==> c.branches[i].strategy != c.fallback
    ensures Route(c, s) == c.fallback <==> NonePasses(c, s)
  {
    RouteIsFirstMatch(c, s);
  }

  /** The branches follow the precedence order, and the fallback comes last. */
  predicate Ranked(c: Chain) {
    && (forall i, j :: 0 <= i < j < |c.branches| ==>
          Rank(c.branches[i].strategy) <= Rank(c.branches[j].strategy))
    && (forall i :: 0 <= i < |c.branches| ==> Rank(c.branches[i].strategy) <= Rank(c.fallback))
  }

  /** On a ranked chain, a source with several capabilities always goes to the
      highest-ranked strategy it qualifies for. */
  lemma RouteHighestRanked<T>(c: Chain, s: Source<T>)
    requires s.Instance? && Ranked(c)
    ensures forall i :: 0 <= i < |c.branches| && Passes(c.branches[i].test, s) ==>
              Rank(Route(c, s)) <= Rank(c.branches[i].strategy)
    ensures Rank(Route(c, s)) <= Rank(c.fallback)
  {
    RouteIsFirstMatch(c, s);
    if k :| FirstPassingAt(c, s, k) && Route(c, s) == c.branches[k].strategy {
      forall i | 0 <= i < |c.branches| && Passes(c.branches[i].test, s)
        ensures Rank(Route(c, s)) <= Rank(c.branches[i].strategy)
      {
        assert !(i < k);
      }
    }
  }

  /** The strategy chosen and the value it computed. */
  datatype Routed<+R> = Routed(strategy: Strategy, value: R)

  /** A dispatching operation whose engine cannot fail: null is rejected with
      IllegalArgumentException, and every other source is routed by the chain and
      yields the engine's reference result, whichever branch is taken. */
  function Run<T, R>(c: Chain, s: Source<T>, engine: seq<T> -> R): (r: Result<Routed<R>>)
    ensures s.Null? ==> r == Err(IllegalArgumentException)
    ensures s.Instance? ==> r.Ok? && FirstMatch(c, s, r.value.strategy) && r.value.value == engine(s.elems)
  {
    if s.Null? then Err(IllegalArgumentException)
    else
      RouteIsFirstMatch(c, s);
      Ok(Routed(Route(c, s), engine(s.elems)))
  }

  /** A dispatching operation whose engine may itself fail (an empty source, an
      invalid size). */
  function RunChecked<T, R>(c: Chain, s: Source<T>, engine: seq<T> -> Result<R>): (r: Result<Routed<R>>)
    ensures s.Null? ==> r == Err(IllegalArgumentException)
    ensures s.Instance? && engine(s.elems).Err? ==> r == Err(engine(s.elems).error)
    ensures s.Instance? && engine(s.elems).Ok? ==>
              r.Ok? && FirstMatch(c, s, r.value.strategy) && r.value.value == engine(s.elems).value
  {
    if s.Null? then Err(IllegalArgumentException)
    else
      match engine(s.elems)
      case Err(e) => Err(e)
      case Ok(v) =>
        RouteIsFirstMatch(c, s);
        Ok(Routed(Route(c, s), v))
  }
}
