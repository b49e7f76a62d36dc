/** The static utility `Iterate`: every operation takes any `Iterable`, rejects
    null (with the exceptions noted below), classifies the argument with its own
    chain of `instanceof` tests, and hands it to the first strategy that applies.
    Whatever the strategy, the result is the reference result of the operation on
    the source's elements in traversal order, as a sequence: a result that Java
    builds as a set, and which merges equal values, keeps them here. */
module Iterate {
  import opened Lang
  import opened Dispatch
  import opened Sequences
  import opened Sorting

  // ------------------------------------------------------------------ chains

  const ArrayListBranch := Branch(InstanceOf(ArrayList), ArrayListEngine)
  const RandomAccessBranch := Branch(InstanceOf(RandomAccess), RandomAccessEngine)
  const ListBranch := Branch(InstanceOf(List), ListEngine)
  /** A Collection source handed to the generic engine with a target of its own species. */
  const SpeciesBranch := Branch(InstanceOf(Collection), CollectionEngine)

  /** forEach, forEachWith, forEachWithIndex. */
  const InternalChain := Chain([Branch(InstanceOf(InternalIterable), Native), ArrayListBranch, RandomAccessBranch], IterableEngine)
  /** Operations whose rich branch tests MutableCollection. */
  const MutableChain := Chain([Branch(InstanceOf(MutableCollection), Native), ArrayListBranch, RandomAccessBranch], IterableEngine)
  /** Operations whose rich branch tests RichIterable (mostly those with a target). */
  const RichChain := Chain([Branch(InstanceOf(RichIterable), Native), ArrayListBranch, RandomAccessBranch], IterableEngine)
  /** As MutableChain, then a Collection branch that picks the result's species. */
  const SpeciesChain := Chain(MutableChain.branches + [SpeciesBranch], IterableEngine)
  /** take: no rich branch. */
  const TakeChain := Chain([ArrayListBranch, RandomAccessBranch, SpeciesBranch], IterableEngine)
  /** drop: no rich and no ArrayList branch. */
  const DropChain := Chain([RandomAccessBranch], IterableEngine)
  /** collectWith without a target: a List branch instead of RandomAccess. */
  const CollectWithChain := Chain([Branch(InstanceOf(MutableCollection), Native), ArrayListBranch, ListBranch, SpeciesBranch], IterableEngine)
  const GetFirstChain := Chain([Branch(InstanceOf(RichIterable), Native), ListBranch,
    Branch(NonEmptyInstanceOf(SortedSet), SortedSetMethod), Branch(InstanceOf(Collection), CollectionMethod)], IterableEngine)
  const GetLastChain := Chain([Branch(InstanceOf(RichIterable), Native), RandomAccessBranch,
    Branch(NonEmptyInstanceOf(SortedSet), SortedSetMethod), Branch(NonEmptyInstanceOf(LinkedList), LinkedListMethod)], IterableEngine)
  const DetectIndexChain := Chain([ArrayListBranch, ListBranch], IterableEngine)
  const SumOfChain := Chain([Branch(InstanceOf(RichIterable), Native), ListBranch], IterableEngine)
  const ChunkChain := Chain([Branch(InstanceOf(RichIterable), Native)], IterableEngine)
  /** minBy, maxBy. */
  const ExtremeByChain := Chain([Branch(InstanceOf(RichIterable), Native), RandomAccessBranch], IterableEngine)
  const GetOnlyChain := Chain([], IterableEngine)
  const IsEmptyChain := Chain([Branch(InstanceOf(RichIterable), Native), Branch(InstanceOf(Collection), CollectionMethod)], IterableEngine)
  /** sizeOf and contains: the Collection test comes before the rich one. */
  const SizeChain := Chain([Branch(InstanceOf(Collection), CollectionMethod), Branch(InstanceOf(RichIterable), Native)], IterableEngine)
  /** sortThis: a list that is neither a MutableList nor an ArrayList goes to Collections.sort. */
  const SortThisChain := Chain([Branch(InstanceOf(MutableList), Native), ArrayListBranch], JdkSort)
  const RemoveIfChain := SpeciesChain

  /** The outcome of a dispatching operation: null is rejected with
      IllegalArgumentException, and any other source is routed to the first
      branch of `c` it passes. */
  ghost predicate Routes<T, R>(c: Chain, s: Source<T>, r: Result<Routed<R>>) {
    && (s.Null? ==> r == Err(IllegalArgumentException))
    && (s.Instance? ==> r.Ok? && FirstMatch(c, s, r.value.strategy))
  }

  // --------------------------------------------------------------- traversal

  /** forEach: the procedure sees every element once, in traversal order. */
  function ForEach<T>(s: Source<T>): (r: Result<Routed<seq<T>>>)
    ensures Routes(InternalChain, s, r)
    ensures r.Ok? ==> r.value.value == s.elems
  {
    Run(InternalChain, s, xs => xs)
  }

  /** forEachWith: the procedure sees each element together with the parameter. */
  function ForEachWith<T, P>(s: Source<T>, parameter: P): (r: Result<Routed<seq<(T, P)>>>)
    ensures Routes(InternalChain, s, r)
    ensures r.Ok? ==> |r.value.value| == |s.elems|
    ensures r.Ok? ==> forall i :: 0 <= i < |s.elems| ==> r.value.value[i] == (s.elems[i], parameter)
  {
    Run(InternalChain, s, xs => Map(xs, x => (x, parameter)))
  }

  /** forEachWithIndex: the procedure sees each element with its position, from 0. */
  function ForEachWithIndex<T>(s: Source<T>): (r: Result<Routed<seq<(T, int)>>>)
    ensures Routes(InternalChain, s, r)
    ensures r.Ok? ==> |r.value.value| == |s.elems|
    ensures r.Ok? ==> forall i :: 0 <= i < |s.elems| ==> r.value.value[i] == (s.elems[i], i)
  {
    if s.Instance? then ZipWithIndexPairs(s.elems); Run(InternalChain, s, Sequences.ZipWithIndex)
    else Run(InternalChain, s, Sequences.ZipWithIndex)
  }

  // --------------------------------------------------------------- filtering

  function Select<T>(s: Source<T>, p: T -> bool): (r: Result<Routed<seq<T>>>)
    ensures Routes(SpeciesChain, s, r)
    ensures r.Ok? ==> r.value.value == Filter(s.elems, p)
  {
    Run(SpeciesChain, s, xs => Filter(xs, p))
  }

  function SelectWith<T, P>(s: Source<T>, p: (T, P) -> bool, parameter: P): (r: Result<Routed<seq<T>>>)
    ensures Routes(SpeciesChain, s, r)
    ensures r.Ok? ==> r.value.value == Filter(s.elems, x => p(x, parameter))
  {
    Run(SpeciesChain, s, xs => Filter(xs, x => p(x, parameter)))
  }

  /** select with a target: the selected elements are added after the target's own. */
  function SelectInto<T>(s: Source<T>, p: T -> bool, target: seq<T>): (r: Result<Routed<seq<T>>>)
    ensures Routes(RichChain, s, r)
    ensures r.Ok? ==> r.value.value == target + Filter(s.elems, p)
  {
    Run(RichChain, s, xs => target + Filter(xs, p))
  }

  function SelectWithInto<T, P>(s: Source<T>, p: (T, P) -> bool, parameter: P, target: seq<T>): (r: Result<Routed<seq<T>>>)
    ensures Routes(RichChain, s, r)
    ensures r.Ok? ==> r.value.value == target + Filter(s.elems, x => p(x, parameter))
  {
    Run(RichChain, s, xs => target + Filter(xs, x => p(x, parameter)))
  }

  function Reject<T>(s: Source<T>, p: T -> bool): (r: Result<Routed<seq<T>>>)
    ensures Routes(SpeciesChain, s, r)
    ensures r.Ok? ==> r.value.value == Sequences.Reject(s.elems, p)
  {
    Run(SpeciesChain, s, xs => Sequences.Reject(xs, p))
  }

  function RejectWith<T, P>(s: Source<T>, p: (T, P) -> bool, parameter: P): (r: Result<Routed<seq<T>>>)
    ensures Routes(SpeciesChain, s, r)
    ensures r.Ok? ==> r.value.value == Sequences.Reject(s.elems, x => p(x, parameter))
  {
    Run(SpeciesChain, s, xs => Sequences.Reject(xs, x => p(x, parameter)))
  }

  function RejectInto<T>(s: Source<T>, p: T -> bool, target: seq<T>): (r: Result<Routed<seq<T>>>)
    ensures Routes(RichChain, s, r)
    ensures r.Ok? ==> r.value.value == target + Sequences.Reject(s.elems, p)
  {
    Run(RichChain, s, xs => target + Sequences.Reject(xs, p))
  }

  function RejectWithInto<T, P>(s: Source<T>, p: (T, P) -> bool, parameter: P, target: seq<T>): (r: Result<Routed<seq<T>>>)
    ensures Routes(RichChain, s, r)
    ensures r.Ok? ==> r.value.value == target + Sequences.Reject(s.elems, x => p(x, parameter))
  {
    Run(RichChain, s, xs => target + Sequences.Reject(xs, x => p(x, parameter)))
  }

  /** selectAndRejectWith: the selected and the rejected elements, in one pass. */
  function SelectAndRejectWith<T, P>(s: Source<T>, p: (T, P) -> bool, parameter: P): (r: Result<Routed<(seq<T>, seq<T>)>>)
    ensures Routes(MutableChain, s, r)
    ensures r.Ok? ==> r.value.value.0 == Filter(s.elems, x => p(x, parameter))
    ensures r.Ok? ==> r.value.value.1 == Sequences.Reject(s.elems, x => p(x, parameter))
  {
    Run(MutableChain, s, xs => Sequences.Partition(xs, x => p(x, parameter)))
  }

  function Partition<T>(s: Source<T>, p: T -> bool): (r: Result<Routed<(seq<T>, seq<T>)>>)
    ensures Routes(RichChain, s, r)
    ensures r.Ok? ==> r.value.value == (Filter(s.elems, p), Sequences.Reject(s.elems, p))
  {
    Run(RichChain, s, xs => Sequences.Partition(xs, p))
  }

  function PartitionWith<T, P>(s: Source<T>, p: (T, P) -> bool, parameter: P): (r: Result<Routed<(seq<T>, seq<T>)>>)
    ensures Routes(RichChain, s, r)
    ensures r.Ok? ==> r.value.value == (Filter(s.elems, x => p(x, parameter)), Sequences.Reject(s.elems, x => p(x, parameter)))
  {
    Run(RichChain, s, xs => Sequences.Partition(xs, x => p(x, parameter)))
  }

  function Count<T>(s: Source<T>, p: T -> bool): (r: Result<Routed<nat>>)
    ensures Routes(RichChain, s, r)
    ensures r.Ok? ==> r.value.value == |Filter(s.elems, p)|
  {
    Run(RichChain, s, xs => Sequences.Count(xs, p))
  }

  function CountWith<T, P>(s: Source<T>, p: (T, P) -> bool, parameter: P): (r: Result<Routed<nat>>)
    ensures Routes(MutableChain, s, r)
    ensures r.Ok? ==> r.value.value == |Filter(s.elems, x => p(x, parameter))|
  {
    Run(MutableChain, s, xs => Sequences.Count(xs, x => p(x, parameter)))
  }

  /** take: the first `count` elements (none for a negative count). */
  function Take<T>(s: Source<T>, count: int): (r: Result<Routed<seq<T>>>)
    ensures Routes(TakeChain, s, r)
    ensures r.Ok? ==> r.value.value == s.elems[..Clamp(count, |s.elems|)]
  {
    Run(TakeChain, s, xs => Sequences.Take(xs, count))
  }

  /** drop: all but the first `count` elements (all for a non-positive count). */
  function Drop<T>(s: Source<T>, count: int): (r: Result<Routed<seq<T>>>)
    ensures Routes(DropChain, s, r)
    ensures r.Ok? ==> r.value.value == s.elems[Clamp(count, |s.elems|)..]
  {
    Run(DropChain, s, xs => Sequences.Drop(xs, count))
  }

  // --------------------------------------------------------------- mapping

  function Collect<T, V>(s: Source<T>, f: T -> V): (r: Result<Routed<seq<V>>>)
    ensures Routes(SpeciesChain, s, r)
    ensures r.Ok? ==> |r.value.value| == |s.elems|
    ensures r.Ok? ==> forall i :: 0 <= i < |s.elems| ==> r.value.value[i] == f(s.elems[i])
  {
    Run(SpeciesChain, s, xs => Map(xs, f))
  }

  function CollectInto<T, V>(s: Source<T>, f: T -> V, target: seq<V>): (r: Result<Routed<seq<V>>>)
    ensures Routes(RichChain, s, r)
    ensures r.Ok? ==> r.value.value == target + Map(s.elems, f)
  {
    Run(RichChain, s, xs => target + Map(xs, f))
  }

  /** collectInt, the representative of the primitive collect operations. */
  function CollectInt<T>(s: Source<T>, f: T -> int): (r: Result<Routed<seq<int>>>)
    ensures Routes(MutableChain, s, r)
    ensures r.Ok? ==> |r.value.value| == |s.elems|
    ensures r.Ok? ==> forall i :: 0 <= i < |s.elems| ==> r.value.value[i] == f(s.elems[i])
  {
    Run(MutableChain, s, xs => Map(xs, f))
  }

  function CollectIntInto<T>(s: Source<T>, f: T -> int, target: seq<int>): (r: Result<Routed<seq<int>>>)
    ensures Routes(MutableChain, s, r)
    ensures r.Ok? ==> r.value.value == target + Map(s.elems, f)
  {
    Run(MutableChain, s, xs => target + Map(xs, f))
  }

  function CollectWith<T, P, V>(s: Source<T>, f: (T, P) -> V, parameter: P): (r: Result<Routed<seq<V>>>)
    ensures Routes(CollectWithChain, s, r)
    ensures r.Ok? ==> |r.value.value| == |s.elems|
    ensures r.Ok? ==> forall i :: 0 <= i < |s.elems| ==> r.value.value[i] == f(s.elems[i], parameter)
  {
    Run(CollectWithChain, s, xs => Map(xs, x => f(x, parameter)))
  }

  function CollectWithInto<T, P, V>(s: Source<T>, f: (T, P) -> V, parameter: P, target: seq<V>): (r: Result<Routed<seq<V>>>)
    ensures Routes(RichChain, s, r)
    ensures r.Ok? ==> r.value.value == target + Map(s.elems, x => f(x, parameter))
  {
    Run(RichChain, s, xs => target + Map(xs, x => f(x, parameter)))
  }

  /** collectIf: the function applied to the elements satisfying the predicate. */
  function CollectIf<T, V>(s: Source<T>, p: T -> bool, f: T -> V): (r: Result<Routed<seq<V>>>)
    ensures Routes(SpeciesChain, s, r)
    ensures r.Ok? ==> r.value.value == Map(Filter(s.elems, p), f)
  {
    Run(SpeciesChain, s, xs => Map(Filter(xs, p), f))
  }

  function CollectIfInto<T, V>(s: Source<T>, p: T -> bool, f: T -> V, target: seq<V>): (r: Result<Routed<seq<V>>>)
    ensures Routes(RichChain, s, r)
    ensures r.Ok? ==> r.value.value == target + Map(Filter(s.elems, p), f)
  {
    Run(RichChain, s, xs => target + Map(Filter(xs, p), f))
  }

  function FlatCollect<T, V>(s: Source<T>, f: T -> seq<V>): (r: Result<Routed<seq<V>>>)
    ensures Routes(SpeciesChain, s, r)
    ensures r.Ok? ==> r.value.value == FlatMap(s.elems, f)
  {
    Run(SpeciesChain, s, xs => FlatMap(xs, f))
  }

  function FlatCollectInto<T, V>(s: Source<T>, f: T -> seq<V>, target: seq<V>): (r: Result<Routed<seq<V>>>)
    ensures Routes(RichChain, s, r)
    ensures r.Ok? ==> r.value.value == target + FlatMap(s.elems, f)
  {
    Run(RichChain, s, xs => target + FlatMap(xs, f))
  }

  /** flatten: flatCollect with the pass-through function. */
  function Flatten<T>(s: Source<seq<T>>): (r: Result<Routed<seq<T>>>)
    ensures Routes(SpeciesChain, s, r)
    ensures r.Ok? ==> r.value.value == FlatMap(s.elems, xs => xs)
  {
    FlatCollect(s, xs => xs)
  }

  function FlattenInto<T>(s: Source<seq<T>>, target: seq<T>): (r: Result<Routed<seq<T>>>)
    ensures Routes(RichChain, s, r)
    ensures r.Ok? ==> r.value.value == target + FlatMap(s.elems, xs => xs)
  {
    FlatCollectInto(s, xs => xs, target)
  }

  // ---------------------------------------------------------- single elements

  /** getFirst: the first element, or null (None) when there is none. */
  function GetFirst<T>(s: Source<T>): (r: Result<Routed<Option<T>>>)
    ensures Routes(GetFirstChain, s, r)
    ensures r.Ok? ==> (r.value.value.None? <==> s.elems == [])
    ensures r.Ok? && r.value.value.Some? ==> r.value.value.value == s.elems[0]
  {
    Run(GetFirstChain, s, First)
  }

  /** getLast: the last element, or null (None) when there is none. */
  function GetLast<T>(s: Source<T>): (r: Result<Routed<Option<T>>>)
    ensures Routes(GetLastChain, s, r)
    ensures r.Ok? ==> (r.value.value.None? <==> s.elems == [])
    ensures r.Ok? && r.value.value.Some? ==> r.value.value.value == s.elems[|s.elems| - 1]
  {
    Run(GetLastChain, s, Last)
  }

  /** getOnly: the one element; a source with none or several is rejected. */
  function GetOnly<T>(s: Source<T>): (r: Result<Routed<T>>)
    ensures s.Null? ==> r == Err(IllegalArgumentException)
    ensures s.Instance? && |s.elems| != 1 ==> r == Err(IllegalArgumentException)
    ensures s.Instance? && |s.elems| == 1 ==> r.Ok? && r.value == Routed(IterableEngine, s.elems[0])
  {
    RunChecked(GetOnlyChain, s, xs => if |xs| == 1 then Ok(xs[0]) else Err(IllegalArgumentException))
  }

  function Detect<T>(s: Source<T>, p: T -> bool): (r: Result<Routed<Option<T>>>)
    ensures Routes(RichChain, s, r)
    ensures r.Ok? ==> (r.value.value.None? <==> forall i :: 0 <= i < |s.elems| ==> !p(s.elems[i]))
    ensures r.Ok? ==> forall i :: FirstIndexOf(s.elems, p, i) ==> r.value.value == Some(s.elems[i])
  {
    if s.Instance? then
      DetectAtDetectIndex(s.elems, p);
      Run(RichChain, s, xs => Sequences.Detect(xs, p))
    else Run(RichChain, s, xs => Sequences.Detect(xs, p))
  }

  function DetectWith<T, P>(s: Source<T>, p: (T, P) -> bool, parameter: P): (r: Result<Routed<Option<T>>>)
    ensures Routes(MutableChain, s, r)
    ensures r.Ok? ==> r.value.value == Sequences.Detect(s.elems, x => p(x, parameter))
  {
    Run(MutableChain, s, xs => Sequences.Detect(xs, x => p(x, parameter)))
  }

  /** detectIfNone over elements that may be null (None): a detected null and no
      match at all both give `ifNone`. */
  function DetectIfNone<T>(s: Source<Option<T>>, p: Option<T> -> bool, ifNone: Option<T>): (r: Result<Option<T>>)
    ensures s.Null? <==> r.Err?
    ensures r.Err? ==> r.error == IllegalArgumentException
    ensures r.Ok? && (forall i :: 0 <= i < |s.elems| ==> !p(s.elems[i])) ==> r.value == ifNone
    ensures r.Ok? ==> forall i :: FirstIndexOf(s.elems, p, i) ==>
              r.value == if s.elems[i].Some? then s.elems[i] else ifNone
  {
    match Detect(s, p)
    case Err(e) => Err(e)
    case Ok(routed) =>
      Ok(if routed.value.Some? && routed.value.value.Some? then routed.value.value else ifNone)
  }

  function DetectWithIfNone<T, P>(s: Source<Option<T>>, p: (Option<T>, P) -> bool, parameter: P, ifNone: Option<T>): (r: Result<Option<T>>)
    ensures s.Null? <==> r.Err?
    ensures r.Err? ==> r.error == IllegalArgumentException
    ensures r.Ok? && (forall i :: 0 <= i < |s.elems| ==> !p(s.elems[i], parameter)) ==> r.value == ifNone
    ensures r.Ok? ==> forall i :: FirstIndexOf(s.elems, x => p(x, parameter), i) ==>
              r.value == if s.elems[i].Some? then s.elems[i] else ifNone
  {
    match DetectWith(s, p, parameter)
    case Err(e) => Err(e)
    case Ok(routed) =>
      Ok(if routed.value.Some? && routed.value.value.Some? then routed.value.value else ifNone)
  }

  /** detectIndex: the position of the first match, or -1. */
  function DetectIndex<T>(s: Source<T>, p: T -> bool): (r: Result<Routed<int>>)
    ensures Routes(DetectIndexChain, s, r)
    ensures r.Ok? ==> -1 <= r.value.value < |s.elems|
    ensures r.Ok? ==> (r.value.value == -1 <==> forall j :: 0 <= j < |s.elems| ==> !p(s.elems[j]))
    ensures r.Ok? && r.value.value >= 0 ==> FirstIndexOf(s.elems, p, r.value.value)
  {
    Run(DetectIndexChain, s, xs => Sequences.DetectIndex(xs, p))
  }

  function DetectIndexWith<T, P>(s: Source<T>, p: (T, P) -> bool, parameter: P): (r: Result<Routed<int>>)
    ensures Routes(DetectIndexChain, s, r)
    ensures r.Ok? ==> r.value.value == Sequences.DetectIndex(s.elems, x => p(x, parameter))
  {
    Run(DetectIndexChain, s, xs => Sequences.DetectIndex(xs, x => p(x, parameter)))
  }

  // ---------------------------------------------------------- quantifiers

  function AnySatisfy<T>(s: Source<T>, p: T -> bool): (r: Result<Routed<bool>>)
    ensures Routes(RichChain, s, r)
    ensures r.Ok? ==> (r.value.value <==> exists i :: 0 <= i < |s.elems| && p(s.elems[i]))
  {
    Run(RichChain, s, xs => Sequences.AnySatisfy(xs, p))
  }

  function AnySatisfyWith<T, P>(s: Source<T>, p: (T, P) -> bool, parameter: P): (r: Result<Routed<bool>>)
    ensures Routes(MutableChain, s, r)
    ensures r.Ok? ==> (r.value.value <==> exists i :: 0 <= i < |s.elems| && p(s.elems[i], parameter))
  {
    Run(MutableChain, s, xs => Sequences.AnySatisfy(xs, x => p(x, parameter)))
  }

  function AllSatisfy<T>(s: Source<T>, p: T -> bool): (r: Result<Routed<bool>>)
    ensures Routes(RichChain, s, r)
    ensures r.Ok? ==> (r.value.value <==> forall i :: 0 <= i < |s.elems| ==> p(s.elems[i]))
  {
    Run(RichChain, s, xs => Sequences.AllSatisfy(xs, p))
  }

  function AllSatisfyWith<T, P>(s: Source<T>, p: (T, P) -> bool, parameter: P): (r: Result<Routed<bool>>)
    ensures Routes(MutableChain, s, r)
    ensures r.Ok? ==> (r.value.value <==> forall i :: 0 <= i < |s.elems| ==> p(s.elems[i], parameter))
  {
    Run(MutableChain, s, xs => Sequences.AllSatisfy(xs, x => p(x, parameter)))
  }

  function NoneSatisfy<T>(s: Source<T>, p: T -> bool): (r: Result<Routed<bool>>)
    ensures Routes(RichChain, s, r)
    ensures r.Ok? ==> (r.value.value <==> forall i :: 0 <= i < |s.elems| ==> !p(s.elems[i]))
  {
    Run(RichChain, s, xs => Sequences.NoneSatisfy(xs, p))
  }

  function NoneSatisfyWith<T, P>(s: Source<T>, p: (T, P) -> bool, parameter: P): (r: Result<Routed<bool>>)
    ensures Routes(MutableChain, s, r)
    ensures r.Ok? ==> (r.value.value <==> forall i :: 0 <= i < |s.elems| ==> !p(s.elems[i], parameter))
  {
    Run(MutableChain, s, xs => Sequences.NoneSatisfy(xs, x => p(x, parameter)))
  }

  // ---------------------------------------------------------------- folding

  function InjectInto<A, T>(seed: A, s: Source<T>, f: (A, T) -> A): (r: Result<Routed<A>>)
    ensures Routes(RichChain, s, r)
    ensures r.Ok? && s.elems == [] ==> r.value.value == seed
    ensures r.Ok? && s.elems != [] ==>
              r.value.value == f(Sequences.InjectInto(seed, s.elems[..|s.elems| - 1], f), s.elems[|s.elems| - 1])
  {
    if s.Instance? && s.elems != [] then
      assert s.elems == s.elems[..|s.elems| - 1] + [s.elems[|s.elems| - 1]];
      InjectIntoSnoc(seed, s.elems[..|s.elems| - 1], s.elems[|s.elems| - 1], f);
      Run(RichChain, s, xs => Sequences.InjectInto(seed, xs, f))
    else Run(RichChain, s, xs => Sequences.InjectInto(seed, xs, f))
  }

  function InjectIntoWith<A, T, P>(seed: A, s: Source<T>, f: (A, T, P) -> A, parameter: P): (r: Result<Routed<A>>)
    ensures Routes(MutableChain, s, r)
    ensures r.Ok? ==> r.value.value == Sequences.InjectInto(seed, s.elems, (a: A, x: T) => f(a, x, parameter))
  {
    Run(MutableChain, s, xs => Sequences.InjectInto(seed, xs, (a: A, x: T) => f(a, x, parameter)))
  }

  const TwoTo64: int := 0x1_0000_0000_0000_0000

  /** A Java `long`: the integer brought into -2^63 .. 2^63-1 modulo 2^64. */
  function WrapLong(x: int): (w: int)
    ensures -TwoTo64 / 2 <= w < TwoTo64 / 2
    ensures (w - x) % TwoTo64 == 0
  {
    (x + TwoTo64 / 2) % TwoTo64 - TwoTo64 / 2
  }

  lemma WrapLongCongruent(x: int, y: int)
    requires (x - y) % TwoTo64 == 0
    ensures WrapLong(x) == WrapLong(y)
  {
    var k := (x - y) / TwoTo64;
    assert x + TwoTo64 / 2 == (y + TwoTo64 / 2) + TwoTo64 * k;
  }

  /** Adding into a `long` accumulator, wrapping on overflow. */
  function LongAdd<T>(f: T -> int): (int, T) -> int {
    (acc: int, x: T) => WrapLong(acc + f(x))
  }

  /** Accumulating with wrap-around at every step gives the exact sum wrapped once. */
  lemma {:induction false} LongSumWraps<T>(a: int, xs: seq<T>, f: T -> int)
    requires -TwoTo64 / 2 <= a < TwoTo64 / 2
    ensures Sequences.InjectInto(a, xs, LongAdd(f)) == WrapLong(a + SumOf(xs, f))
    decreases xs
  {
    if xs == [] {
    } else {
      var a' := WrapLong(a + f(xs[0]));
      LongSumWraps(a', xs[1..], f);
      WrapLongCongruent(a' + SumOf(xs[1..], f), a + SumOf(xs, f));
    }
  }

  /** sumOfInt: the `long` sum of the int values, wrapping on overflow. */
  function SumOfInt<T>(s: Source<T>, f: T -> int): (r: Result<Routed<int>>)
    ensures Routes(SumOfChain, s, r)
    ensures r.Ok? ==> r.value.value == WrapLong(SumOf(s.elems, f))
  {
    if s.Instance? then
      LongSumWraps(0, s.elems, f);
      Run(SumOfChain, s, xs => Sequences.InjectInto(0, xs, LongAdd(f)))
    else Run(SumOfChain, s, xs => Sequences.InjectInto(0, xs, LongAdd(f)))
  }

  /** sumOfLong: the `long` sum of the long values, wrapping on overflow. */
  function SumOfLong<T>(s: Source<T>, f: T -> int): (r: Result<Routed<int>>)
    ensures Routes(SumOfChain, s, r)
    ensures r.Ok? ==> r.value.value == WrapLong(SumOf(s.elems, f))
  {
    SumOfInt(s, f)
  }

  // -------------------------------------------------------------- grouping

  function GroupBy<T, K(!new)>(s: Source<T>, key: T -> K): (r: Result<Routed<map<K, seq<T>>>>)
    ensures Routes(SpeciesChain, s, r)
    ensures r.Ok? ==> forall k :: k in r.value.value <==> exists i :: 0 <= i < |s.elems| && key(s.elems[i]) == k
    ensures r.Ok? ==> forall k :: k in r.value.value ==> r.value.value[k] == Filter(s.elems, x => key(x) == k)
  {
    if s.Instance? then
      assert forall k :: (k in Sequences.GroupBy(s.elems, key) <==> exists i :: 0 <= i < |s.elems| && key(s.elems[i]) == k)
                      && (k in Sequences.GroupBy(s.elems, key) ==> Sequences.GroupBy(s.elems, key)[k] == Filter(s.elems, x => key(x) == k)) by {
        forall k { GroupByContents(s.elems, key, k); }
      }
      Run(SpeciesChain, s, xs => Sequences.GroupBy(xs, key))
    else Run(SpeciesChain, s, xs => Sequences.GroupBy(xs, key))
  }

  /** groupBy with a target multimap: each element is appended to its key's group. */
  function GroupByInto<T, K(!new)>(s: Source<T>, key: T -> K, target: map<K, seq<T>>): (r: Result<Routed<map<K, seq<T>>>>)
    ensures Routes(RichChain, s, r)
    ensures r.Ok? ==> forall k :: GroupOf(r.value.value, k) == GroupOf(target, k) + Filter(s.elems, x => key(x) == k)
  {
    if s.Instance? then
      assert forall k :: GroupOf(GroupInto(target, s.elems, key), k) == GroupOf(target, k) + Filter(s.elems, x => key(x) == k) by {
        forall k { GroupIntoContents(target, s.elems, key, k); }
      }
      Run(RichChain, s, xs => GroupInto(target, xs, key))
    else Run(RichChain, s, xs => GroupInto(target, xs, key))
  }

  function GroupByEach<T, K(!new)>(s: Source<T>, keys: T -> seq<K>): (r: Result<Routed<map<K, seq<T>>>>)
    ensures Routes(SpeciesChain, s, r)
    ensures r.Ok? ==> r.value.value == Sequences.GroupByEach(s.elems, keys)
    ensures r.Ok? ==> forall k :: GroupOf(r.value.value, k) == FlatMap(s.elems, FiledUnder(keys, k))
    ensures r.Ok? ==> forall k :: k in r.value.value <==> exists i :: 0 <= i < |s.elems| && k in keys(s.elems[i])
  {
    if s.Instance? then
      var g := GroupEachInto(map[], s.elems, keys);
      assert forall k :: GroupOf(g, k) == FlatMap(s.elems, FiledUnder(keys, k)) by {
        forall k { GroupEachIntoContents(map[], s.elems, keys, k); }
      }
      assert forall k :: k in g <==> exists i :: 0 <= i < |s.elems| && k in keys(s.elems[i]) by {
        forall k { GroupEachIntoKeys(map[], s.elems, keys, k); }
      }
      Run(SpeciesChain, s, xs => Sequences.GroupByEach(xs, keys))
    else Run(SpeciesChain, s, xs => Sequences.GroupByEach(xs, keys))
  }

  function GroupByEachInto<T, K(!new)>(s: Source<T>, keys: T -> seq<K>, target: map<K, seq<T>>): (r: Result<Routed<map<K, seq<T>>>>)
    ensures Routes(RichChain, s, r)
    ensures r.Ok? ==> r.value.value == GroupEachInto(target, s.elems, keys)
    ensures r.Ok? ==> forall k :: GroupOf(r.value.value, k) == GroupOf(target, k) + FlatMap(s.elems, FiledUnder(keys, k))
  {
    if s.Instance? then
      assert forall k :: GroupOf(GroupEachInto(target, s.elems, keys), k) == GroupOf(target, k) + FlatMap(s.elems, FiledUnder(keys, k)) by {
        forall k { GroupEachIntoContents(target, s.elems, keys, k); }
      }
      Run(RichChain, s, xs => GroupEachInto(target, xs, keys))
    else Run(RichChain, s, xs => GroupEachInto(target, xs, keys))
  }

  /** aggregateBy: one value per key, folded from `zero` over that key's elements. */
  function AggregateBy<T, K, V>(s: Source<T>, key: T -> K, zero: V, agg: (V, T) -> V): (r: Result<Routed<map<K, V>>>)
    ensures Routes(MutableChain, s, r)
    ensures r.Ok? ==> r.value.value.Keys == Sequences.GroupBy(s.elems, key).Keys
    ensures r.Ok? ==> forall k :: k in r.value.value ==>
              r.value.value[k] == Sequences.InjectInto(zero, Sequences.GroupBy(s.elems, key)[k], agg)
  {
    if s.Instance? then
      AggregateByFoldsGroups(s.elems, key, zero, agg);
      Run(MutableChain, s, xs => Sequences.AggregateBy(xs, key, zero, agg))
    else Run(MutableChain, s, xs => Sequences.AggregateBy(xs, key, zero, agg))
  }

  /** aggregateInPlaceBy, with the mutating aggregator seen as a function from the
      old value to the new one. */
  function AggregateInPlaceBy<T, K, V>(s: Source<T>, key: T -> K, zero: V, agg: (V, T) -> V): (r: Result<Routed<map<K, V>>>)
    ensures Routes(MutableChain, s, r)
    ensures r.Ok? ==> r.value.value.Keys == Sequences.GroupBy(s.elems, key).Keys
    ensures r.Ok? ==> forall k :: k in r.value.value ==>
              r.value.value[k] == Sequences.InjectInto(zero, Sequences.GroupBy(s.elems, key)[k], agg)
  {
    AggregateBy(s, key, zero, agg)
  }

  // ------------------------------------------------------------------ zipping

  /** zip: pairs by position, as long as the shorter side. */
  function Zip<X, Y>(xs: Source<X>, ys: seq<Y>): (r: Result<Routed<seq<(X, Y)>>>)
    ensures Routes(MutableChain, xs, r)
    ensures r.Ok? ==> |r.value.value| == Sequences.Min(|xs.elems|, |ys|)
    ensures r.Ok? ==> forall i :: 0 <= i < |r.value.value| ==> r.value.value[i] == (xs.elems[i], ys[i])
  {
    Run(MutableChain, xs, es => Sequences.Zip(es, ys))
  }

  function ZipInto<X, Y>(xs: Source<X>, ys: seq<Y>, target: seq<(X, Y)>): (r: Result<Routed<seq<(X, Y)>>>)
    ensures Routes(RichChain, xs, r)
    ensures r.Ok? ==> r.value.value == target + Sequences.Zip(xs.elems, ys)
  {
    Run(RichChain, xs, es => target + Sequences.Zip(es, ys))
  }

  function ZipWithIndex<T>(s: Source<T>): (r: Result<Routed<seq<(T, int)>>>)
    ensures Routes(SpeciesChain, s, r)
    ensures r.Ok? ==> |r.value.value| == |s.elems|
    ensures r.Ok? ==> forall i :: 0 <= i < |s.elems| ==> r.value.value[i] == (s.elems[i], i)
  {
    if s.Instance? then ZipWithIndexPairs(s.elems); Run(SpeciesChain, s, Sequences.ZipWithIndex)
    else Run(SpeciesChain, s, Sequences.ZipWithIndex)
  }

  function ZipWithIndexInto<T>(s: Source<T>, target: seq<(T, int)>): (r: Result<Routed<seq<(T, int)>>>)
    ensures Routes(RichChain, s, r)
    ensures r.Ok? ==> r.value.value == target + Sequences.ZipWithIndex(s.elems)
  {
    Run(RichChain, s, xs => target + Sequences.ZipWithIndex(xs))
  }

  // ----------------------------------------------------------------- chunking

  /** chunk: consecutive pieces of `size`; a non-positive size is rejected. */
  function Chunk<T>(s: Source<T>, size: int): (r: Result<Routed<seq<seq<T>>>>)
    ensures s.Null? ==> r == Err(IllegalArgumentException)
    ensures s.Instance? && size <= 0 ==> r == Err(IllegalArgumentException)
    ensures s.Instance? && size > 0 ==> r.Ok? && FirstMatch(ChunkChain, s, r.value.strategy)
    ensures r.Ok? ==> Concat(r.value.value) == s.elems
    ensures r.Ok? ==> forall i :: 0 <= i < |r.value.value| ==> 0 < |r.value.value[i]| <= size
  {
    if s.Instance? && size > 0 then
      ChunksConcat(s.elems, size);
      RunChecked(ChunkChain, s, xs => Sequences.Chunk(xs, size))
    else RunChecked(ChunkChain, s, xs => Sequences.Chunk(xs, size))
  }

  // ----------------------------------------------------------------- extremes

  /** minBy: the element with the least key, the first among equal keys; an empty
      source has none. */
  function MinBy<T(!new)>(s: Source<T>, key: T -> int): (r: Result<Routed<T>>)
    ensures s.Null? ==> r == Err(IllegalArgumentException)
    ensures s.Instance? && s.elems == [] ==> r == Err(NoSuchElementException)
    ensures s.Instance? && s.elems != [] ==> r.Ok? && FirstMatch(ExtremeByChain, s, r.value.strategy)
    ensures r.Ok? ==> exists k :: FirstMinimumAt(s.elems, KeyComparator(key), k) && s.elems[k] == r.value.value
  {
    if s.Instance? && s.elems != [] then
      KeyComparatorValid(key);
      MinOfIsFirstMinimum(s.elems, KeyComparator(key));
      RunChecked(ExtremeByChain, s, xs => if xs == [] then Err(NoSuchElementException) else Ok(MinOf(xs, KeyComparator(key))))
    else RunChecked(ExtremeByChain, s, xs => if xs == [] then Err(NoSuchElementException) else Ok(MinOf(xs, KeyComparator(key))))
  }

  /** maxBy: the element with the greatest key, the first among equal keys. */
  function MaxBy<T(!new)>(s: Source<T>, key: T -> int): (r: Result<Routed<T>>)
    ensures s.Null? ==> r == Err(IllegalArgumentException)
    ensures s.Instance? && s.elems == [] ==> r == Err(NoSuchElementException)
    ensures s.Instance? && s.elems != [] ==> r.Ok? && FirstMatch(ExtremeByChain, s, r.value.strategy)
    ensures r.Ok? ==> exists k :: FirstMinimumAt(s.elems, Negated(KeyComparator(key)), k) && s.elems[k] == r.value.value
  {
    if s.Instance? && s.elems != [] then
      KeyComparatorValid(key);
      MaxOfIsFirstMaximum(s.elems, KeyComparator(key));
      RunChecked(ExtremeByChain, s, xs => if xs == [] then Err(NoSuchElementException) else Ok(MaxOf(xs, KeyComparator(key))))
    else RunChecked(ExtremeByChain, s, xs => if xs == [] then Err(NoSuchElementException) else Ok(MaxOf(xs, KeyComparator(key))))
  }

  // ------------------------------------------------------- emptiness and size

  /** isEmpty: null counts as empty. */
  function IsEmpty<T>(s: Source<T>): (r: Routed<bool>)
    ensures s.Null? ==> r == Routed(NullSafe, true)
    ensures s.Instance? ==> FirstMatch(IsEmptyChain, s, r.strategy) && (r.value <==> s.elems == [])
  {
    if s.Null? then Routed(NullSafe, true)
    else
      RouteIsFirstMatch(IsEmptyChain, s);
      Routed(Route(IsEmptyChain, s), s.elems == [])
  }

  function NotEmpty<T>(s: Source<T>): (b: bool)
    ensures b <==> s.Instance? && s.elems != []
  {
    !IsEmpty(s).value
  }

  /** sizeOf: a Collection or RichIterable answers itself; anything else, null
      included, is counted with an always-true predicate. */
  function SizeOf<T>(s: Source<T>): (r: Result<Routed<nat>>)
    ensures s.Null? ==> r == Err(IllegalArgumentException)
    ensures s.Instance? ==> r.Ok? && r.value.value == |s.elems|
    ensures s.Instance? && (Collection in s.types || RichIterable in s.types) ==> FirstMatch(SizeChain, s, r.value.strategy)
    ensures s.Instance? && Collection !in s.types && RichIterable !in s.types ==> FirstMatch(RichChain, s, r.value.strategy)
  {
    if s.Null? then Count(s, _ => true)
    else
      RouteIsFirstMatch(SizeChain, s);
      var st := Route(SizeChain, s);
      if st == IterableEngine then
        CountAll(s.elems);
        Count(s, _ => true)
      else Ok(Routed(st, |s.elems|))
  }

  /** contains: membership by equality. A null source is not accepted by the
      generic engine. */
  function Contains<T(==)>(s: Source<T>, value: T): (r: Result<Routed<bool>>)
    ensures s.Null? ==> r == Err(NullPointerException)
    ensures s.Instance? ==> r.Ok? && FirstMatch(SizeChain, s, r.value.strategy) && (r.value.value <==> value in s.elems)
  {
    if s.Null? then Err(NullPointerException)
    else
      RouteIsFirstMatch(SizeChain, s);
      Ok(Routed(Route(SizeChain, s), Sequences.DetectIndex(s.elems, x => x == value) > -1))
  }

  /** toSortedList: a new list holding the elements stably sorted. */
  function ToSortedList<T(!new)>(s: Source<T>, cmp: Comparator<T>): (r: seq<T>)
    requires s.Instance?
    ensures multiset(r) == multiset(s.elems)
    ensures ValidComparator(cmp) ==> Sorted(r, cmp)
    ensures ValidComparator(cmp) ==> forall k :: Filter(r, EquivalentTo(cmp, k)) == Filter(s.elems, EquivalentTo(cmp, k))
  {
    StableSortPermutes(s.elems, cmp);
    assert ValidComparator(cmp) ==> Sorted(StableSort(s.elems, cmp), cmp) && forall k :: Filter(StableSort(s.elems, cmp), EquivalentTo(cmp, k)) == Filter(s.elems, EquivalentTo(cmp, k)) by {
      if ValidComparator(cmp) {
        StableSortSorted(s.elems, cmp);
        forall k { StableSortStable(s.elems, cmp, k); }
      }
    }
    StableSort(s.elems, cmp)
  }
}
