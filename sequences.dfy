/** Reference definitions of the operations on the traversal order of a source.
    Whichever strategy the dispatch chain picks, the operation's result is the one
    defined here for the source's elements. */
module Sequences {
  import opened Lang

  // ---------------------------------------------------------------- filtering

  /** The elements satisfying `p`, in traversal order. */
  function Filter<T>(xs: seq<T>, p: T -> bool): (r: seq<T>)
    ensures |r| <= |xs|
    ensures forall i :: 0 <= i < |r| ==> p(r[i])
  {
    if xs == [] then []
    else (if p(xs[0]) then [xs[0]] else []) + Filter(xs[1..], p)
  }

  /** The elements not satisfying `p`, in traversal order. */
  function Reject<T>(xs: seq<T>, p: T -> bool): (r: seq<T>)
    ensures forall i :: 0 <= i < |r| ==> !p(r[i])
  {
    if xs == [] then []
    else (if p(xs[0]) then [] else [xs[0]]) + Reject(xs[1..], p)
  }

  /** selectAndReject in one pass: the `p` elements and the others. */
  function Partition<T>(xs: seq<T>, p: T -> bool): (r: (seq<T>, seq<T>))
    ensures r.0 == Filter(xs, p) && r.1 == Reject(xs, p)
  {
    if xs == [] then ([], [])
    else
      var rest := Partition(xs[1..], p);
      if p(xs[0]) then
        assert Filter(xs, p) == [xs[0]] + Filter(xs[1..], p) && Reject(xs, p) == Reject(xs[1..], p);
        ([xs[0]] + rest.0, rest.1)
      else
        assert Filter(xs, p) == Filter(xs[1..], p) && Reject(xs, p) == [xs[0]] + Reject(xs[1..], p);
        (rest.0, [xs[0]] + rest.1)
  }

  /** Every element goes to exactly one side of a partition, with its multiplicity. */
  lemma {:induction false} PartitionIsExact<T>(xs: seq<T>, p: T -> bool)
    ensures multiset(Filter(xs, p)) + multiset(Reject(xs, p)) == multiset(xs)
  {
    if xs != [] {
      PartitionIsExact(xs[1..], p);
      assert xs == [xs[0]] + xs[1..];
      assert multiset(xs) == multiset([xs[0]]) + multiset(xs[1..]);
      if p(xs[0]) {
        assert Filter(xs, p) == [xs[0]] + Filter(xs[1..], p);
        assert Reject(xs, p) == Reject(xs[1..], p);
      } else {
        assert Filter(xs, p) == Filter(xs[1..], p);
        assert Reject(xs, p) == [xs[0]] + Reject(xs[1..], p);
      }
    }
  }

  /** Filtering a concatenation filters each part. */
  lemma {:induction false} FilterConcat<T>(xs: seq<T>, ys: seq<T>, p: T -> bool)
    ensures Filter(xs + ys, p) == Filter(xs, p) + Filter(ys, p)
  {
    if xs == [] {
      assert xs + ys == ys;
    } else {
      var zs := xs + ys;
      assert zs[0] == xs[0] && zs[1..] == xs[1..] + ys;
      FilterConcat(xs[1..], ys, p);
      if p(xs[0]) {
        assert Filter(zs, p) == [xs[0]] + Filter(xs[1..] + ys, p);
        assert Filter(xs, p) == [xs[0]] + Filter(xs[1..], p);
        assert [xs[0]] + (Filter(xs[1..], p) + Filter(ys, p)) == ([xs[0]] + Filter(xs[1..], p)) + Filter(ys, p);
      } else {
        assert Filter(zs, p) == Filter(xs[1..] + ys, p);
        assert Filter(xs, p) == Filter(xs[1..], p);
      }
    }
  }

  /** Filtering keeps exactly the elements satisfying `p`. */
  lemma {:induction false} FilterMembership<T>(xs: seq<T>, p: T -> bool, x: T)
    ensures x in Filter(xs, p) <==> x in xs && p(x)
  {
    if xs != [] {
      FilterMembership(xs[1..], p, x);
      assert x in xs <==> x == xs[0] || x in xs[1..];
    }
  }

  // ------------------------------------------------------------------ mapping

  /** `f` applied to each element, in traversal order. */
  function Map<T, U>(xs: seq<T>, f: T -> U): (r: seq<U>)
    ensures |r| == |xs|
    ensures forall i :: 0 <= i < |xs| ==> r[i] == f(xs[i])
  {
    if xs == [] then [] else [f(xs[0])] + Map(xs[1..], f)
  }

  /** The concatenation of `f`'s results, in traversal order. */
  function FlatMap<T, U>(xs: seq<T>, f: T -> seq<U>): seq<U> {
    if xs == [] then [] else f(xs[0]) + FlatMap(xs[1..], f)
  }

  /** A flat map whose function returns one element is a map. */
  lemma {:induction false} FlatMapSingletons<T, U>(xs: seq<T>, f: T -> U)
    ensures FlatMap(xs, x => [f(x)]) == Map(xs, f)
  {
    if xs != [] {
      FlatMapSingletons(xs[1..], f);
    }
  }

  /** Flat mapping a concatenation flat maps each part. */
  lemma {:induction false} FlatMapConcat<T, U>(xs: seq<T>, ys: seq<T>, f: T -> seq<U>)
    ensures FlatMap(xs + ys, f) == FlatMap(xs, f) + FlatMap(ys, f)
  {
    if xs == [] {
      assert xs + ys == ys;
    } else {
      FlatMapConcat(xs[1..], ys, f);
      assert (xs + ys)[0] == xs[0] && (xs + ys)[1..] == xs[1..] + ys;
    }
  }

  /** The sequences of a sequence, concatenated in order. */
  function Concat<T>(xss: seq<seq<T>>): seq<T> {
    if xss == [] then [] else xss[0] + Concat(xss[1..])
  }

  // ---------------------------------------------------------------- counting

  /** How many elements satisfy `p`. */
  function Count<T>(xs: seq<T>, p: T -> bool): (n: nat)
    ensures n == |Filter(xs, p)|
    ensures n <= |xs|
  {
    if xs == [] then 0 else (if p(xs[0]) then 1 else 0) + Count(xs[1..], p)
  }

  /** Counting everything gives the size. */
  lemma {:induction false} CountAll<T>(xs: seq<T>)
    ensures Count(xs, _ => true) == |xs|
  {
    if xs != [] {
      CountAll(xs[1..]);
    }
  }

  /** The elements satisfying `p` and the others add up to the size. */
  lemma CountComplement<T>(xs: seq<T>, p: T -> bool)
    ensures Count(xs, p) + |Reject(xs, p)| == |xs|
  {
    PartitionIsExact(xs, p);
    assert |multiset(Filter(xs, p))| + |multiset(Reject(xs, p))| == |multiset(xs)|;
  }

  // -------------------------------------------------------------- quantifiers

  function AnySatisfy<T>(xs: seq<T>, p: T -> bool): (b: bool)
    ensures b <==> exists i :: 0 <= i < |xs| && p(xs[i])
  {
    if xs == [] then false
    else
      assert forall i :: 1 <= i < |xs| ==> xs[i] == xs[1..][i - 1];
      p(xs[0]) || AnySatisfy(xs[1..], p)
  }

  function AllSatisfy<T>(xs: seq<T>, p: T -> bool): (b: bool)
    ensures b <==> forall i :: 0 <= i < |xs| ==> p(xs[i])
  {
    if xs == [] then true
    else
      assert forall i :: 1 <= i < |xs| ==> xs[i] == xs[1..][i - 1];
      p(xs[0]) && AllSatisfy(xs[1..], p)
  }

  function NoneSatisfy<T>(xs: seq<T>, p: T -> bool): (b: bool)
    ensures b <==> forall i :: 0 <= i < |xs| ==> !p(xs[i])
  {
    if xs == [] then true
    else
      assert forall i :: 1 <= i < |xs| ==> xs[i] == xs[1..][i - 1];
      !p(xs[0]) && NoneSatisfy(xs[1..], p)
  }

  /** The three quantifiers are each other's duals; on an empty source `any` is
      false and `all`, `none` are true. */
  lemma QuantifierDuality<T>(xs: seq<T>, p: T -> bool)
    ensures NoneSatisfy(xs, p) == !AnySatisfy(xs, p)
    ensures AllSatisfy(xs, p) == NoneSatisfy(xs, x => !p(x))
    ensures AnySatisfy(xs, p) == (Count(xs, p) > 0)
    ensures xs == [] ==> !AnySatisfy(xs, p) && AllSatisfy(xs, p) && NoneSatisfy(xs, p)
  {
    if AnySatisfy(xs, p) {
      var i :| 0 <= i < |xs| && p(xs[i]);
      FilterMembership(xs, p, xs[i]);
    }
    if Count(xs, p) > 0 {
      var y := Filter(xs, p)[0];
      FilterMembership(xs, p, y);
    }
  }

  // ---------------------------------------------------------------- detection

  /** The first element satisfying `p`, if any. */
  function Detect<T>(xs: seq<T>, p: T -> bool): (r: Option<T>)
    ensures r.None? <==> forall i :: 0 <= i < |xs| ==> !p(xs[i])
    ensures r.Some? ==> exists i :: 0 <= i < |xs| && xs[i] == r.value && FirstIndexOf(xs, p, i)
  {
    if xs == [] then None
    else if p(xs[0]) then
      assert FirstIndexOf(xs, p, 0);
      Some(xs[0])
    else
      var r := Detect(xs[1..], p);
      assert forall i :: 1 <= i < |xs| ==> xs[i] == xs[1..][i - 1];
      assert r.Some? ==> exists i :: 0 <= i < |xs| && xs[i] == r.value && FirstIndexOf(xs, p, i) by {
        if r.Some? {
          var i :| 0 <= i < |xs| - 1 && xs[1..][i] == r.value && FirstIndexOf(xs[1..], p, i);
          assert FirstIndexOf(xs, p, i + 1);
        }
      }
      r
  }

  /** `i` is the position of the first element satisfying `p`. */
  ghost predicate FirstIndexOf<T>(xs: seq<T>, p: T -> bool, i: int) {
    0 <= i < |xs| && p(xs[i]) && forall j :: 0 <= j < i ==> !p(xs[j])
  }

  /** The position of the first element satisfying `p`, or -1. */
  function DetectIndex<T>(xs: seq<T>, p: T -> bool): (i: int)
    ensures -1 <= i < |xs|
    ensures i == -1 <==> forall j :: 0 <= j < |xs| ==> !p(xs[j])
    ensures i >= 0 ==> FirstIndexOf(xs, p, i)
  {
    if xs == [] then -1
    else if p(xs[0]) then 0
    else
      var k := DetectIndex(xs[1..], p);
      assert forall j :: 1 <= j < |xs| ==> xs[j] == xs[1..][j - 1];
      if k == -1 then -1 else k + 1
  }

  /** detect and detectIndex agree: the detected element sits at the detected index. */
  lemma DetectAtDetectIndex<T>(xs: seq<T>, p: T -> bool)
    ensures DetectIndex(xs, p) == -1 ==> Detect(xs, p) == None
    ensures DetectIndex(xs, p) >= 0 ==> Detect(xs, p) == Some(xs[DetectIndex(xs, p)])
  {
    var k := DetectIndex(xs, p);
    if k >= 0 {
      assert FirstIndexOf(xs, p, k);
      assert Detect(xs, p).Some?;
      var i :| 0 <= i < |xs| && xs[i] == Detect(xs, p).value && FirstIndexOf(xs, p, i);
      assert !(i < k) && !(k < i);
    }
  }

  // ------------------------------------------------------------------ folding

  /** Left fold in traversal order (injectInto). */
  function InjectInto<A, T>(seed: A, xs: seq<T>, f: (A, T) -> A): A
    decreases xs
  {
    if xs == [] then seed else InjectInto(f(seed, xs[0]), xs[1..], f)
  }

  /** Folding a concatenation folds the second part from the first part's result. */
  lemma {:induction false} InjectIntoConcat<A, T>(seed: A, xs: seq<T>, ys: seq<T>, f: (A, T) -> A)
    ensures InjectInto(seed, xs + ys, f) == InjectInto(InjectInto(seed, xs, f), ys, f)
    decreases xs
  {
    if xs == [] {
      assert xs + ys == ys;
    } else {
      assert (xs + ys)[0] == xs[0] && (xs + ys)[1..] == xs[1..] + ys;
      InjectIntoConcat(f(seed, xs[0]), xs[1..], ys, f);
    }
  }

  /** Folding one more element applies `f` once more. */
  lemma InjectIntoSnoc<A, T>(seed: A, xs: seq<T>, x: T, f: (A, T) -> A)
    ensures InjectInto(seed, xs + [x], f) == f(InjectInto(seed, xs, f), x)
  {
    InjectIntoConcat(seed, xs, [x], f);
  }

  /** The sum of `f` over the elements, in unbounded integers. */
  function SumOf<T>(xs: seq<T>, f: T -> int): int {
    if xs == [] then 0 else f(xs[0]) + SumOf(xs[1..], f)
  }

  /** The sum is the fold of `+` from zero. */
  lemma SumOfIsInjectInto<T>(xs: seq<T>, f: T -> int)
    ensures SumOf(xs, f) == InjectInto(0, xs, (acc: int, x: T) => acc + f(x))
  {
    SumFrom(0, xs, f);
  }

  lemma {:induction false} SumFrom<T>(a: int, xs: seq<T>, f: T -> int)
    ensures InjectInto(a, xs, (acc: int, x: T) => acc + f(x)) == a + SumOf(xs, f)
    decreases xs
  {
    if xs != [] {
      SumFrom(a + f(xs[0]), xs[1..], f);
    }
  }

  // ------------------------------------------------------------------ zipping

  function Min(a: int, b: int): int {
    if a <= b then a else b
  }

  /** Pairs of elements at equal positions, as long as the shorter input. */
  function Zip<X, Y>(xs: seq<X>, ys: seq<Y>): (r: seq<(X, Y)>)
    ensures |r| == Min(|xs|, |ys|)
    ensures forall i :: 0 <= i < |r| ==> r[i] == (xs[i], ys[i])
  {
    if xs == [] || ys == [] then [] else [(xs[0], ys[0])] + Zip(xs[1..], ys[1..])
  }

  /** The positions `0 .. n-1`. */
  function Indices(n: nat): (r: seq<int>)
    ensures |r| == n
    ensures forall i :: 0 <= i < n ==> r[i] == i
  {
    if n == 0 then [] else Indices(n - 1) + [n - 1]
  }

  /** Every element paired with its position. */
  function ZipWithIndex<T>(xs: seq<T>): seq<(T, int)> {
    Zip(xs, Indices(|xs|))
  }

  /** Each pair of zipWithIndex holds the element at that position and the position. */
  lemma ZipWithIndexPairs<T>(xs: seq<T>)
    ensures |ZipWithIndex(xs)| == |xs|
    ensures forall i :: 0 <= i < |xs| ==> ZipWithIndex(xs)[i] == (xs[i], i)
  {
  }

  /** Zipping with a sequence at least as long keeps every element of the first, in order. */
  lemma ZipKeepsFirst<X, Y>(xs: seq<X>, ys: seq<Y>)
    requires |xs| <= |ys|
    ensures Map(Zip(xs, ys), (pr: (X, Y)) => pr.0) == xs
  {
  }

  // ------------------------------------------------------------ take and drop

  /** A requested count brought into `0 .. n`. */
  function Clamp(count: int, n: nat): (c: nat)
    ensures c <= n
    ensures 0 <= count <= n ==> c == count
    ensures count < 0 ==> c == 0
    ensures count > n ==> c == n
  {
    if count < 0 then 0 else if count > n then n else count
  }

  /** The first `count` elements, or all of them when there are fewer. */
  function Take<T>(xs: seq<T>, count: int): seq<T> {
    xs[..Clamp(count, |xs|)]
  }

  /** All but the first `count` elements, or none when there are fewer. */
  function Drop<T>(xs: seq<T>, count: int): seq<T> {
    xs[Clamp(count, |xs|)..]
  }

  /** take and drop split the source at the same point. */
  lemma TakeDropSplit<T>(xs: seq<T>, count: int)
    ensures Take(xs, count) + Drop(xs, count) == xs
    ensures |Take(xs, count)| == Clamp(count, |xs|)
    ensures count <= 0 ==> Take(xs, count) == [] && Drop(xs, count) == xs
    ensures count >= |xs| ==> Take(xs, count) == xs && Drop(xs, count) == []
  {
  }

  // --------------------------------------------------------------- grouping

  /** The group of `k` in `m`, or the empty group. */
  function GroupOf<K, T>(m: map<K, seq<T>>, k: K): seq<T> {
    if k in m then m[k] else []
  }

  /** Adds `x` at the end of the group of each key in `keys`, in order. */
  function PutUnderKeys<K, T>(m: map<K, seq<T>>, keys: seq<K>, x: T): map<K, seq<T>>
    decreases keys
  {
    if keys == [] then m
    else PutUnderKeys(m[keys[0] := GroupOf(m, keys[0]) + [x]], keys[1..], x)
  }

  /** Adds the elements to a multimap, each under all of its keys. */
  function GroupEachInto<K, T>(m: map<K, seq<T>>, xs: seq<T>, keys: T -> seq<K>): map<K, seq<T>>
    decreases xs
  {
    if xs == [] then m else GroupEachInto(PutUnderKeys(m, keys(xs[0]), xs[0]), xs[1..], keys)
  }

  /** Adds the elements to a multimap, each under its one key. */
  function GroupInto<K, T>(m: map<K, seq<T>>, xs: seq<T>, key: T -> K): map<K, seq<T>>
    decreases xs
  {
    if xs == [] then m
    else GroupInto(m[key(xs[0]) := GroupOf(m, key(xs[0])) + [xs[0]]], xs[1..], key)
  }

  /** groupBy: the elements grouped by key, each group in traversal order. */
  function GroupBy<K, T>(xs: seq<T>, key: T -> K): map<K, seq<T>> {
    GroupInto(map[], xs, key)
  }

  /** groupByEach: each element under every key it yields. */
  function GroupByEach<K, T>(xs: seq<T>, keys: T -> seq<K>): map<K, seq<T>> {
    GroupEachInto(map[], xs, keys)
  }

  /** Grouping into a multimap appends to each key's group exactly the elements
      with that key, in traversal order, and creates no other keys. */
  lemma {:induction false} GroupIntoContents<K, T>(m: map<K, seq<T>>, xs: seq<T>, key: T -> K, k: K)
    ensures GroupOf(GroupInto(m, xs, key), k) == GroupOf(m, k) + Filter(xs, x => key(x) == k)
    ensures k in GroupInto(m, xs, key) <==> k in m || exists i :: 0 <= i < |xs| && key(xs[i]) == k
    decreases xs
  {
    if xs != [] {
      var m' := m[key(xs[0]) := GroupOf(m, key(xs[0])) + [xs[0]]];
      GroupIntoContents(m', xs[1..], key, k);
      assert forall i :: 1 <= i < |xs| ==> xs[i] == xs[1..][i - 1];
      if key(xs[0]) == k {
        assert GroupOf(m', k) == GroupOf(m, k) + [xs[0]];
      } else {
        assert GroupOf(m', k) == GroupOf(m, k);
      }
    }
  }

  /** groupBy's group for a key holds exactly the elements with that key, and the
      keys are exactly the keys of the elements. */
  lemma GroupByContents<K, T>(xs: seq<T>, key: T -> K, k: K)
    ensures k in GroupBy(xs, key) <==> exists i :: 0 <= i < |xs| && key(xs[i]) == k
    ensures k in GroupBy(xs, key) ==> GroupBy(xs, key)[k] == Filter(xs, x => key(x) == k)
  {
    GroupIntoContents(map[], xs, key, k);
  }

  lemma {:induction false} PutUnderOneKey<K, T>(m: map<K, seq<T>>, k: K, x: T)
    ensures PutUnderKeys(m, [k], x) == m[k := GroupOf(m, k) + [x]]
  {
    assert [k][1..] == [];
  }

  lemma {:induction false} GroupEachIntoSingleKeys<K, T>(m: map<K, seq<T>>, xs: seq<T>, key: T -> K)
    ensures GroupEachInto(m, xs, x => [key(x)]) == GroupInto(m, xs, key)
    decreases xs
  {
    if xs != [] {
      PutUnderOneKey(m, key(xs[0]), xs[0]);
      GroupEachIntoSingleKeys(m[key(xs[0]) := GroupOf(m, key(xs[0])) + [xs[0]]], xs[1..], key);
    }
  }

  /** What groupByEach files under `k` for one element: the element, once for
      each occurrence of `k` among its keys. */
  ghost function FiledUnder<K, T>(keys: T -> seq<K>, k: K): T -> seq<T> {
    x => seq(Count(keys(x), y => y == k), _ => x)
  }

  lemma {:induction false} PutUnderKeysContents<K, T>(m: map<K, seq<T>>, ks: seq<K>, x: T, k: K)
    ensures GroupOf(PutUnderKeys(m, ks, x), k) == GroupOf(m, k) + seq(Count(ks, y => y == k), _ => x)
    ensures k in PutUnderKeys(m, ks, x) <==> k in m || k in ks
    decreases ks
  {
    if ks != [] {
      var m' := m[ks[0] := GroupOf(m, ks[0]) + [x]];
      PutUnderKeysContents(m', ks[1..], x, k);
      var n := Count(ks[1..], y => y == k);
      if ks[0] == k {
        assert seq(n + 1, _ => x) == [x] + seq(n, _ => x);
      }
      assert ks == [ks[0]] + ks[1..];
    }
  }

  /** Grouping into a multimap under several keys appends to each key's group
      every element once per occurrence of that key among the element's keys, in
      traversal order. */
  lemma {:induction false} GroupEachIntoContents<K, T>(m: map<K, seq<T>>, xs: seq<T>, keys: T -> seq<K>, k: K)
    ensures GroupOf(GroupEachInto(m, xs, keys), k) == GroupOf(m, k) + FlatMap(xs, FiledUnder(keys, k))
    decreases xs
  {
    if xs != [] {
      var m' := PutUnderKeys(m, keys(xs[0]), xs[0]);
      PutUnderKeysContents(m, keys(xs[0]), xs[0], k);
      GroupEachIntoContents(m', xs[1..], keys, k);
      assert FiledUnder(keys, k)(xs[0]) == seq(Count(keys(xs[0]), y => y == k), _ => xs[0]);
    }
  }

  /** ... and creates exactly the keys that some element produces. */
  lemma {:induction false} GroupEachIntoKeys<K, T>(m: map<K, seq<T>>, xs: seq<T>, keys: T -> seq<K>, k: K)
    ensures k in GroupEachInto(m, xs, keys) <==> k in m || exists i :: 0 <= i < |xs| && k in keys(xs[i])
    decreases xs
  {
    if xs != [] {
      var m' := PutUnderKeys(m, keys(xs[0]), xs[0]);
      PutUnderKeysContents(m, keys(xs[0]), xs[0], k);
      GroupEachIntoKeys(m', xs[1..], keys, k);
      if k !in m && k !in keys(xs[0]) && exists i :: 0 <= i < |xs| && k in keys(xs[i]) {
        var i :| 0 <= i < |xs| && k in keys(xs[i]);
        assert xs[1..][i - 1] == xs[i];
      }
      if exists i :: 0 <= i < |xs[1..]| && k in keys(xs[1..][i]) {
        var i :| 0 <= i < |xs[1..]| && k in keys(xs[1..][i]);
        assert xs[1..][i] == xs[i + 1];
      }
    }
  }

  /** groupByEach with one key per element is groupBy. */
  lemma GroupByEachGeneralizesGroupBy<K, T>(xs: seq<T>, key: T -> K)
    ensures GroupByEach(xs, x => [key(x)]) == GroupBy(xs, key)
  {
    GroupEachIntoSingleKeys(map[], xs, key);
  }

  // ------------------------------------------------------------- aggregation

  /** Folds the elements into one value per key, starting each key from `zero`. */
  function AggregateInto<K, V, T>(m: map<K, V>, xs: seq<T>, key: T -> K, zero: V, agg: (V, T) -> V): map<K, V>
    decreases xs
  {
    if xs == [] then m
    else
      var k := key(xs[0]);
      AggregateInto(m[k := agg(if k in m then m[k] else zero, xs[0])], xs[1..], key, zero, agg)
  }

  /** aggregateBy: one folded value per key. */
  function AggregateBy<K, V, T>(xs: seq<T>, key: T -> K, zero: V, agg: (V, T) -> V): map<K, V> {
    AggregateInto(map[], xs, key, zero, agg)
  }

  /** `agg` holds, for every key of `groups`, the fold of that group. */
  ghost predicate AggregatesGroups<K, V, T>(agg: map<K, V>, groups: map<K, seq<T>>, zero: V, f: (V, T) -> V) {
    agg.Keys == groups.Keys && forall k :: k in agg ==> agg[k] == InjectInto(zero, groups[k], f)
  }

  lemma {:induction false} AggregateIntoGroups<K, V, T>(
    a: map<K, V>, g: map<K, seq<T>>, xs: seq<T>, key: T -> K, zero: V, f: (V, T) -> V)
    requires AggregatesGroups(a, g, zero, f)
    ensures AggregatesGroups(AggregateInto(a, xs, key, zero, f), GroupInto(g, xs, key), zero, f)
    decreases xs
  {
    if xs != [] {
      var k := key(xs[0]);
      var a' := a[k := f(if k in a then a[k] else zero, xs[0])];
      var g' := g[k := GroupOf(g, k) + [xs[0]]];
      InjectIntoSnoc(zero, GroupOf(g, k), xs[0], f);
      assert AggregatesGroups(a', g', zero, f);
      AggregateIntoGroups(a', g', xs[1..], key, zero, f);
    }
  }

  /** aggregateBy's value for each key is the fold of groupBy's group for that key,
      and the two have the same keys. */
  lemma AggregateByFoldsGroups<K, V, T>(xs: seq<T>, key: T -> K, zero: V, f: (V, T) -> V)
    ensures AggregateBy(xs, key, zero, f).Keys == GroupBy(xs, key).Keys
    ensures forall k :: k in AggregateBy(xs, key, zero, f) ==>
              AggregateBy(xs, key, zero, f)[k] == InjectInto(zero, GroupBy(xs, key)[k], f)
  {
    AggregateIntoGroups(map[], map[], xs, key, zero, f);
  }

  // ---------------------------------------------------------------- chunking

  /** Splits into consecutive pieces of `size` elements, the last possibly shorter. */
  function Chunks<T>(xs: seq<T>, size: int): (r: seq<seq<T>>)
    requires size > 0
    ensures forall i :: 0 <= i < |r| ==> 0 < |r[i]| <= size
    ensures forall i :: 0 <= i < |r| - 1 ==> |r[i]| == size
    decreases |xs|
  {
    if xs == [] then []
    else if |xs| <= size then [xs]
    else [xs[..size]] + Chunks(xs[size..], size)
  }

  /** chunk: a non-positive size is rejected, taken to be with
      IllegalArgumentException as the engines do. */
  function Chunk<T>(xs: seq<T>, size: int): (r: Result<seq<seq<T>>>)
    ensures r.Err? <==> size <= 0
    ensures r.Err? ==> r.error == IllegalArgumentException
  {
    if size <= 0 then Err(IllegalArgumentException) else Ok(Chunks(xs, size))
  }

  /** Concatenating the chunks gives back the source. */
  lemma {:induction false} ChunksConcat<T>(xs: seq<T>, size: int)
    requires size > 0
    ensures Concat(Chunks(xs, size)) == xs
    decreases |xs|
  {
    if xs != [] && |xs| > size {
      ChunksConcat(xs[size..], size);
      assert xs == xs[..size] + xs[size..];
    }
  }

  // -------------------------------------------------------- single elements

  function First<T>(xs: seq<T>): (r: Option<T>)
    ensures r.None? <==> xs == []
    ensures r.Some? ==> r.value == xs[0]
  {
    if xs == [] then None else Some(xs[0])
  }

  function Last<T>(xs: seq<T>): (r: Option<T>)
    ensures r.None? <==> xs == []
    ensures r.Some? ==> r.value == xs[|xs| - 1]
  {
    if xs == [] then None else Some(xs[|xs| - 1])
  }
}
