/** The operations of `Iterate` that change their arguments in place or build
    their result step by step: sorting a list, removing from a collection, adding
    to a target collection or map, and the comparator-driven minimum and maximum. */
module IterateStateful {
  import opened Lang
  import opened Dispatch
  import opened Sequences
  import opened Sorting
  import Iterate

  /** A mutable java.util object of fixed runtime type whose elements change in place. */
  class JavaCollection<T> {
    const types: set<JavaType>
    var elems: seq<T>

    constructor (types: set<JavaType>, elems: seq<T>)
      ensures this.types == types && this.elems == elems
    {
      this.types := types;
      this.elems := elems;
    }

    /** The object passed as an `Iterable` argument. */
    function AsSource(): Source<T>
      reads this
    {
      Instance(types, elems)
    }
  }

  // ------------------------------------------------------------------ sorting

  /** sortThis(list, comparator): the list sorted stably in place, and returned.
      A MutableList sorts itself, an ArrayList goes to the ArrayList engine, and
      any other list is handed to Collections.sort unless it has at most one
      element. A null list fails on `size()`. */
  method SortThis<T(!new)>(list: JavaCollection?<T>, cmp: Comparator<T>) returns (r: Result<Routed<JavaCollection<T>>>)
    requires list != null ==> List in list.types
    modifies list
    ensures list == null ==> r == Err(NullPointerException)
    ensures list != null ==> r.Ok? && r.value.value == list
    ensures list != null ==> FirstMatch(Iterate.SortThisChain, old(list.AsSource()), r.value.strategy)
    ensures list != null ==> list.elems == StableSort(old(list.elems), cmp)
    ensures list != null ==> multiset(list.elems) == multiset(old(list.elems))
    ensures list != null && ValidComparator(cmp) ==> Sorted(list.elems, cmp)
    ensures list != null && |old(list.elems)| <= 1 ==> list.elems == old(list.elems)
  {
    if list == null {
      return Err(NullPointerException);
    }
    RouteIsFirstMatch(Iterate.SortThisChain, list.AsSource());
    var st := Route(Iterate.SortThisChain, list.AsSource());
    StableSortPermutes(list.elems, cmp);
    if |list.elems| <= 1 {
      StableSortSmall(list.elems, cmp);
    }
    if ValidComparator(cmp) {
      StableSortSorted(list.elems, cmp);
    }
    if st == JdkSort {
      if |list.elems| > 1 {
        list.elems := StableSort(list.elems, cmp);
      }
    } else {
      list.elems := StableSort(list.elems, cmp);
    }
    r := Ok(Routed(st, list));
  }

  /** sortThis(list): natural order, given as the elements' `compareTo`. */
  method SortThisNatural<T(!new)>(list: JavaCollection?<T>, compareTo: Comparator<T>) returns (r: Result<Routed<JavaCollection<T>>>)
    requires list != null ==> List in list.types
    modifies list
    ensures list == null ==> r == Err(NullPointerException)
    ensures list != null ==> r.Ok? && r.value.value == list
    ensures list != null ==> FirstMatch(Iterate.SortThisChain, old(list.AsSource()), r.value.strategy)
    ensures list != null ==> list.elems == StableSort(old(list.elems), compareTo)
  {
    r := SortThis(list, compareTo);
  }

  /** sortThis(list, predicate): sorts by the comparator that answers -1 when the
      predicate accepts (o1, o2), 1 when it accepts (o2, o1), and 0 otherwise.
      For a strict weak order the list ends up sorted. */
  method SortThisWith<T(!new)>(list: JavaCollection?<T>, before: (T, T) -> bool) returns (r: Result<Routed<JavaCollection<T>>>)
    requires list != null ==> List in list.types
    modifies list
    ensures list == null ==> r == Err(NullPointerException)
    ensures list != null ==> r.Ok? && r.value.value == list
    ensures list != null ==> list.elems == StableSort(old(list.elems), PredicateComparator(before))
    ensures list != null && StrictWeakOrder(before) ==>
              forall i, j :: 0 <= i < j < |list.elems| ==> !before(list.elems[j], list.elems[i])
  {
    if StrictWeakOrder(before) {
      PredicateComparatorValid(before);
    }
    r := SortThis(list, PredicateComparator(before));
  }

  /** sortThisBy: sorts by the keys the function derives, so keys never decrease. */
  method SortThisBy<T(!new)>(list: JavaCollection?<T>, key: T -> int) returns (r: Result<Routed<JavaCollection<T>>>)
    requires list != null ==> List in list.types
    modifies list
    ensures list == null ==> r == Err(NullPointerException)
    ensures list != null ==> r.Ok? && r.value.value == list
    ensures list != null ==> list.elems == StableSort(old(list.elems), KeyComparator(key))
    ensures list != null ==> forall i, j :: 0 <= i < j < |list.elems| ==> key(list.elems[i]) <= key(list.elems[j])
  {
    KeyComparatorValid(key);
    r := SortThis(list, KeyComparator(key));
  }

  // ----------------------------------------------------------------- removing

  /** removeIf: the elements satisfying the predicate are removed in place. The
      collection itself is returned, except that a plain Iterable (no branch
      passes) gives null (None). */
  method RemoveIf<T>(c: JavaCollection?<T>, p: T -> bool) returns (r: Result<Routed<Option<JavaCollection<T>>>>)
    modifies c
    ensures c == null ==> r == Err(IllegalArgumentException)
    ensures c != null ==> r.Ok? && FirstMatch(Iterate.RemoveIfChain, old(c.AsSource()), r.value.strategy)
    ensures c != null ==> c.elems == Sequences.Reject(old(c.elems), p)
    ensures c != null ==> r.value.value == if NonePasses(Iterate.RemoveIfChain, old(c.AsSource())) then None else Some(c)
  {
    if c == null {
      return Err(IllegalArgumentException);
    }
    RouteIsFirstMatch(Iterate.RemoveIfChain, c.AsSource());
    FallbackIffNonePasses(Iterate.RemoveIfChain, c.AsSource());
    var st := Route(Iterate.RemoveIfChain, c.AsSource());
    c.elems := Sequences.Reject(c.elems, p);
    if st == IterableEngine {
      r := Ok(Routed(st, None));
    } else {
      r := Ok(Routed(st, Some(c)));
    }
  }

  method RemoveIfWith<T, P>(c: JavaCollection?<T>, p: (T, P) -> bool, parameter: P) returns (r: Result<Routed<Option<JavaCollection<T>>>>)
    modifies c
    ensures c == null ==> r == Err(IllegalArgumentException)
    ensures c != null ==> r.Ok? && FirstMatch(Iterate.RemoveIfChain, old(c.AsSource()), r.value.strategy)
    ensures c != null ==> c.elems == Sequences.Reject(old(c.elems), x => p(x, parameter))
    ensures c != null ==> r.value.value == if NonePasses(Iterate.RemoveIfChain, old(c.AsSource())) then None else Some(c)
  {
    r := RemoveIf(c, x => p(x, parameter));
  }

  // ------------------------------------------------------- target collections

  /** `Collection.add`: a set ignores an element it already holds, a list appends. */
  function AddOne<T(==)>(elems: seq<T>, x: T, isSet: bool): (r: seq<T>)
    ensures !isSet ==> r == elems + [x]
    ensures isSet && x in elems ==> r == elems
    ensures isSet && x !in elems ==> r == elems + [x]
  {
    if isSet && x in elems then elems else elems + [x]
  }

  function AddStep<T(==)>(isSet: bool): (seq<T>, T) -> seq<T> {
    (acc: seq<T>, x: T) => AddOne(acc, x, isSet)
  }

  /** The contents after adding each element in traversal order. */
  function AddAll<T(==)>(elems: seq<T>, xs: seq<T>, isSet: bool): seq<T> {
    Sequences.InjectInto(elems, xs, AddStep(isSet))
  }

  /** Added to a list, the elements follow the target's own, in traversal order. */
  lemma {:induction false} AddAllToList<T>(elems: seq<T>, xs: seq<T>)
    ensures AddAll(elems, xs, false) == elems + xs
    decreases xs
  {
    if xs == [] {
      assert elems + xs == elems;
    } else {
      AddAllToList(elems + [xs[0]], xs[1..]);
      assert elems + [xs[0]] + xs[1..] == elems + xs;
    }
  }

  /** Added to a set, the target keeps what it held, gains exactly the elements
      it lacked, and appends each at most once. */
  lemma {:induction false} AddAllToSet<T>(elems: seq<T>, xs: seq<T>)
    ensures |AddAll(elems, xs, true)| >= |elems|
    ensures AddAll(elems, xs, true)[..|elems|] == elems
    ensures forall x :: x in AddAll(elems, xs, true) <==> x in elems || x in xs
    ensures forall i :: |elems| <= i < |AddAll(elems, xs, true)| ==>
              AddAll(elems, xs, true)[i] !in AddAll(elems, xs, true)[..i]
    decreases xs
  {
    if xs != [] {
      var e' := AddOne(elems, xs[0], true);
      var r := AddAll(elems, xs, true);
      AddAllToSet(e', xs[1..]);
      assert r == AddAll(e', xs[1..], true);
      assert r[..|elems|] == r[..|e'|][..|elems|];
      forall x
        ensures x in r <==> x in elems || x in xs
      {
        assert x in xs <==> x == xs[0] || x in xs[1..];
        assert x in e' <==> x in elems || x == xs[0];
      }
      forall i | |elems| <= i < |r|
        ensures r[i] !in r[..i]
      {
        if i < |e'| {
          assert i == |elems| && r[i] == xs[0] && r[..i] == elems;
        }
      }
    }
  }

  lemma AddAllHas<T>(elems: seq<T>, xs: seq<T>, x: T)
    ensures x in AddAll(elems, xs, true) <==> x in elems || x in xs
  {
    AddAllToSet(elems, xs);
  }

  /** addAllIterable into a set reports a change exactly when the source held an
      element the set lacked. */
  lemma SetTargetChanged<T>(elems: seq<T>, xs: seq<T>)
    ensures |AddAll(elems, xs, true)| != |elems| <==> exists x :: x in xs && x !in elems
  {
    var r := AddAll(elems, xs, true);
    AddAllToSet(elems, xs);
    if |r| != |elems| {
      var y := r[|elems|];
      assert y in r && y !in elems;
      assert y in AddAll(elems, xs, true);
      assert y in elems || y in xs by {
        AddAllHas(elems, xs, y);
      }
    } else {
      assert r == r[..|elems|];
    }
  }

  /** A target collection that is added to. */
  class TargetCollection<T(==)> {
    const isSet: bool
    var elems: seq<T>

    constructor (isSet: bool, elems: seq<T>)
      ensures this.isSet == isSet && this.elems == elems
    {
      this.isSet := isSet;
      this.elems := elems;
    }

    /** `add`: reports whether the collection changed. */
    method Add(x: T) returns (changed: bool)
      modifies this
      ensures elems == AddOne(old(elems), x, isSet)
      ensures changed <==> |elems| != |old(elems)|
    {
      changed := !(isSet && x in elems);
      elems := AddOne(elems, x, isSet);
    }
  }

  /** addAllIterable: adds every element to the target and reports whether the
      target's size changed. A Collection source goes through the target's
      `addAll`; any other source is added element by element and the sizes are
      compared. A null source fails with NullPointerException. */
  method AddAllIterable<T(==)>(s: Source<T>, target: TargetCollection<T>) returns (r: Result<bool>)
    modifies target
    ensures s.Null? ==> r == Err(NullPointerException) && target.elems == old(target.elems)
    ensures s.Instance? ==> target.elems == AddAll(old(target.elems), s.elems, target.isSet)
    ensures s.Instance? ==> r == Ok(|target.elems| != |old(target.elems)|)
  {
    if s.Null? {
      return Err(NullPointerException);
    }
    ghost var start := target.elems;
    if Collection in s.types {
      // targetCollection.addAll(collection): true when some add changed the target
      var changed := false;
      var i := 0;
      while i < |s.elems|
        invariant 0 <= i <= |s.elems|
        invariant target.elems == AddAll(start, s.elems[..i], target.isSet)
        invariant |target.elems| >= |start|
        invariant changed <==> |target.elems| != |start|
      {
        assert s.elems[..i + 1] == s.elems[..i] + [s.elems[i]];
        InjectIntoSnoc(start, s.elems[..i], s.elems[i], AddStep(target.isSet));
        var c := target.Add(s.elems[i]);
        changed := changed || c;
        i := i + 1;
      }
      assert s.elems[..i] == s.elems;
      r := Ok(changed);
    } else {
      var oldSize := |target.elems|;
      var i := 0;
      while i < |s.elems|
        invariant 0 <= i <= |s.elems|
        invariant target.elems == AddAll(start, s.elems[..i], target.isSet)
      {
        assert s.elems[..i + 1] == s.elems[..i] + [s.elems[i]];
        InjectIntoSnoc(start, s.elems[..i], s.elems[i], AddStep(target.isSet));
        var _ := target.Add(s.elems[i]);
        i := i + 1;
      }
      assert s.elems[..i] == s.elems;
      r := Ok(|target.elems| != oldSize);
    }
  }

  /** addAllTo: addAllIterable, then the target itself. */
  method AddAllTo<T(==)>(s: Source<T>, target: TargetCollection<T>) returns (r: Result<TargetCollection<T>>)
    modifies target
    ensures s.Null? ==> r == Err(NullPointerException) && target.elems == old(target.elems)
    ensures s.Instance? ==> r == Ok(target) && target.elems == AddAll(old(target.elems), s.elems, target.isSet)
  {
    var added := AddAllIterable(s, target);
    if added.Err? {
      return Err(added.error);
    }
    r := Ok(target);
  }

  // -------------------------------------------------------------------- maps

  /** A mutable map that entries are put into. */
  class JavaMap<K(==), V> {
    var entries: map<K, V>

    constructor ()
      ensures entries == map[]
    {
      entries := map[];
    }

    /** `put`: a key already present takes the new value. */
    method Put(k: K, v: V)
      modifies this
      ensures entries == old(entries)[k := v]
    {
      entries := entries[k := v];
    }
  }

  function PutStep<T, K, V>(key: T -> K, value: T -> V): (map<K, V>, T) -> map<K, V> {
    (m: map<K, V>, x: T) => m[key(x) := value(x)]
  }

  /** The map after putting `key(x) -> value(x)` for each element in traversal order. */
  function PutAll<T, K, V>(m: map<K, V>, xs: seq<T>, key: T -> K, value: T -> V): map<K, V> {
    Sequences.InjectInto(m, xs, PutStep(key, value))
  }

  /** `xs[i]` is the last element whose key is `k`. */
  ghost predicate LastWithKey<T, K>(xs: seq<T>, key: T -> K, k: K, i: int) {
    && 0 <= i < |xs|
    && key(xs[i]) == k
    && forall j :: i < j < |xs| ==> key(xs[j]) != k
  }

  /** After putting the elements, a key is present when it was before or some
      element has it; its value is that of the last element with the key, and a
      key no element has keeps its old value. */
  lemma {:induction false} PutAllEntries<T, K, V>(m: map<K, V>, xs: seq<T>, key: T -> K, value: T -> V, k: K)
    ensures k in PutAll(m, xs, key, value) <==> k in m || exists i :: 0 <= i < |xs| && key(xs[i]) == k
    ensures k in m && (forall i :: 0 <= i < |xs| ==> key(xs[i]) != k) ==> PutAll(m, xs, key, value)[k] == m[k]
    ensures forall i :: LastWithKey(xs, key, k, i) ==> PutAll(m, xs, key, value)[k] == value(xs[i])
    decreases |xs|
  {
    if xs != [] {
      var p, x := xs[..|xs| - 1], xs[|xs| - 1];
      assert xs == p + [x];
      InjectIntoSnoc(m, p, x, PutStep(key, value));
      PutAllEntries(m, p, key, value, k);
      if key(x) == k {
        forall i | LastWithKey(xs, key, k, i)
          ensures i == |xs| - 1
        {
          assert !(i < |xs| - 1);
        }
      } else {
        assert forall i :: 0 <= i < |p| ==> xs[i] == p[i];
        forall i | LastWithKey(xs, key, k, i)
          ensures LastWithKey(p, key, k, i)
        {
        }
        assert (exists i :: 0 <= i < |xs| && key(xs[i]) == k) ==> exists i :: 0 <= i < |p| && key(p[i]) == k;
      }
    }
  }

  /** addToMap: every element is put into the map under its key, the last one
      with a given key winning. A null source is rejected by forEach. */
  method AddToMap<T, K(==), V>(s: Source<T>, key: T -> K, value: T -> V, m: JavaMap<K, V>) returns (r: Result<JavaMap<K, V>>)
    modifies m
    ensures s.Null? ==> r == Err(IllegalArgumentException) && m.entries == old(m.entries)
    ensures s.Instance? ==> r == Ok(m) && m.entries == PutAll(old(m.entries), s.elems, key, value)
  {
    if s.Null? {
      return Err(IllegalArgumentException);
    }
    ghost var start := m.entries;
    var i := 0;
    while i < |s.elems|
      invariant 0 <= i <= |s.elems|
      invariant m.entries == PutAll(start, s.elems[..i], key, value)
    {
      assert s.elems[..i + 1] == s.elems[..i] + [s.elems[i]];
      InjectIntoSnoc(start, s.elems[..i], s.elems[i], PutStep(key, value));
      m.Put(key(s.elems[i]), value(s.elems[i]));
      i := i + 1;
    }
    assert s.elems[..i] == s.elems;
    r := Ok(m);
  }

  /** addToMap with a key function only: the elements themselves are the values. */
  method AddToMapByKey<T, K(==)>(s: Source<T>, key: T -> K, m: JavaMap<K, T>) returns (r: Result<JavaMap<K, T>>)
    modifies m
    ensures s.Null? ==> r == Err(IllegalArgumentException) && m.entries == old(m.entries)
    ensures s.Instance? ==> r == Ok(m) && m.entries == PutAll(old(m.entries), s.elems, key, x => x)
  {
    r := AddToMap(s, key, x => x, m);
  }

  /** toMap: addToMap into a new, empty map. */
  method ToMap<T, K(==), V>(s: Source<T>, key: T -> K, value: T -> V) returns (r: Result<JavaMap<K, V>>)
    ensures s.Null? ==> r == Err(IllegalArgumentException)
    ensures s.Instance? ==> r.Ok? && fresh(r.value) && r.value.entries == PutAll(map[], s.elems, key, value)
  {
    var m := new JavaMap();
    r := AddToMap(s, key, value, m);
  }

  /** toMap with a key function only. */
  method ToMapByKey<T, K(==)>(s: Source<T>, key: T -> K) returns (r: Result<JavaMap<K, T>>)
    ensures s.Null? ==> r == Err(IllegalArgumentException)
    ensures s.Instance? ==> r.Ok? && fresh(r.value) && r.value.entries == PutAll(map[], s.elems, key, x => x)
  {
    var m := new JavaMap();
    r := AddToMap(s, key, x => x, m);
  }

  // --------------------------------------------------------------- extremes

  /** min(iterable, comparator): forEach with MinComparatorProcedure, which keeps
      the first element it sees and then any element comparing strictly less.
      A null source is rejected by forEach; an empty one has no result. */
  method Min<T>(s: Source<T>, cmp: Comparator<T>) returns (r: Result<T>)
    ensures s.Null? ==> r == Err(IllegalArgumentException)
    ensures s.Instance? && s.elems == [] ==> r == Err(NoSuchElementException)
    ensures s.Instance? && s.elems != [] ==> r == Ok(MinOf(s.elems, cmp))
  {
    if s.Null? {
      return Err(IllegalArgumentException);
    }
    var xs := s.elems;
    var visitedAtLeastOnce := false;
    var result: Option<T> := None;
    var i := 0;
    while i < |xs|
      invariant 0 <= i <= |xs|
      invariant visitedAtLeastOnce <==> i > 0
      invariant visitedAtLeastOnce <==> result.Some?
      invariant i > 0 ==> result.value == MinOf(xs[..i], cmp)
    {
      var each := xs[i];
      if !visitedAtLeastOnce {
        visitedAtLeastOnce := true;
        result := Some(each);
        assert xs[..1][1..] == [];
      } else {
        assert xs[..i + 1] == xs[..i] + [each];
        MinOfSnoc(xs[..i], each, cmp);
        if cmp(each, result.value) < 0 {
          result := Some(each);
        }
      }
      i := i + 1;
    }
    assert xs[..i] == xs;
    if !visitedAtLeastOnce {
      return Err(NoSuchElementException);
    }
    r := Ok(result.value);
  }

  /** max(iterable, comparator): as min, keeping an element that compares
      strictly greater. */
  method Max<T>(s: Source<T>, cmp: Comparator<T>) returns (r: Result<T>)
    ensures s.Null? ==> r == Err(IllegalArgumentException)
    ensures s.Instance? && s.elems == [] ==> r == Err(NoSuchElementException)
    ensures s.Instance? && s.elems != [] ==> r == Ok(MaxOf(s.elems, cmp))
  {
    if s.Null? {
      return Err(IllegalArgumentException);
    }
    var xs := s.elems;
    var visitedAtLeastOnce := false;
    var result: Option<T> := None;
    var i := 0;
    while i < |xs|
      invariant 0 <= i <= |xs|
      invariant visitedAtLeastOnce <==> i > 0
      invariant visitedAtLeastOnce <==> result.Some?
      invariant i > 0 ==> result.value == MaxOf(xs[..i], cmp)
    {
      var each := xs[i];
      if !visitedAtLeastOnce {
        visitedAtLeastOnce := true;
        result := Some(each);
        assert xs[..1][1..] == [];
      } else {
        assert xs[..i + 1] == xs[..i] + [each];
        MinOfSnoc(xs[..i], each, Negated(cmp));
        if cmp(each, result.value) > 0 {
          result := Some(each);
        }
      }
      i := i + 1;
    }
    assert xs[..i] == xs;
    if !visitedAtLeastOnce {
      return Err(NoSuchElementException);
    }
    r := Ok(result.value);
  }

  /** min(iterable): natural order on integers. */
  method MinNatural(s: Source<int>) returns (r: Result<int>)
    ensures s.Null? ==> r == Err(IllegalArgumentException)
    ensures s.Instance? && s.elems == [] ==> r == Err(NoSuchElementException)
    ensures s.Instance? && s.elems != [] ==> r.Ok? && r.value in s.elems && forall x :: x in s.elems ==> r.value <= x
  {
    r := Min(s, NaturalOrder());
    if s.Instance? && s.elems != [] {
      NaturalMinimum(s.elems);
    }
  }

  /** max(iterable): natural order on integers. */
  method MaxNatural(s: Source<int>) returns (r: Result<int>)
    ensures s.Null? ==> r == Err(IllegalArgumentException)
    ensures s.Instance? && s.elems == [] ==> r == Err(NoSuchElementException)
    ensures s.Instance? && s.elems != [] ==> r.Ok? && r.value in s.elems && forall x :: x in s.elems ==> r.value >= x
  {
    r := Max(s, NaturalOrder());
    if s.Instance? && s.elems != [] {
      NaturalMaximum(s.elems);
    }
  }
}
