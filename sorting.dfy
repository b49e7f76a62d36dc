/** Comparators, the stable sort that every sorting branch performs, and the
    minimum and maximum chosen by a comparator. */
module Sorting {
  import opened Sequences

  /** A Java `Comparator`, as the function `compare(o1, o2)`. */
  type Comparator<!T> = (T, T) -> int

  function Sign(x: int): int {
    if x < 0 then -1 else if x > 0 then 1 else 0
  }

  /** The contract of `Comparator.compare`: antisymmetric in sign, transitive,
      and elements comparing as equal compare alike with every third element. */
  ghost predicate ValidComparator<T(!new)>(cmp: Comparator<T>) {
    && (forall x, y :: Sign(cmp(x, y)) == -Sign(cmp(y, x)))
    && (forall x, y, z :: cmp(x, y) > 0 && cmp(y, z) > 0 ==> cmp(x, z) > 0)
    && (forall x, y, z :: cmp(x, y) == 0 ==> Sign(cmp(x, z)) == Sign(cmp(y, z)))
  }

  lemma Reflexive<T(!new)>(cmp: Comparator<T>, x: T)
    requires ValidComparator(cmp)
    ensures cmp(x, x) == 0
  {
    assert Sign(cmp(x, x)) == -Sign(cmp(x, x));
  }

  lemma Flip<T(!new)>(cmp: Comparator<T>, x: T, y: T)
    requires ValidComparator(cmp)
    ensures cmp(x, y) < 0 <==> cmp(y, x) > 0
    ensures cmp(x, y) == 0 <==> cmp(y, x) == 0
  {
    assert Sign(cmp(x, y)) == -Sign(cmp(y, x));
  }

  lemma SameClass<T(!new)>(cmp: Comparator<T>, a: T, b: T, c: T)
    requires ValidComparator(cmp)
    ensures cmp(a, b) == 0 ==> Sign(cmp(a, c)) == Sign(cmp(b, c))
  {
  }

  /** "At most" is transitive. */
  lemma AtMostTransitive<T(!new)>(cmp: Comparator<T>, a: T, b: T, c: T)
    requires ValidComparator(cmp)
    requires cmp(a, b) <= 0 && cmp(b, c) <= 0
    ensures cmp(a, c) <= 0
  {
    Flip(cmp, a, b);
    Flip(cmp, b, c);
    Flip(cmp, a, c);
    if cmp(a, b) == 0 {
      assert Sign(cmp(a, c)) == Sign(cmp(b, c));
    } else if cmp(b, c) == 0 {
      assert Sign(cmp(b, a)) == Sign(cmp(c, a));
    } else {
      assert cmp(c, b) > 0 && cmp(b, a) > 0;
    }
  }

  /** "At least, then greater" is "greater". */
  lemma AtLeastThenGreater<T(!new)>(cmp: Comparator<T>, a: T, b: T, c: T)
    requires ValidComparator(cmp)
    requires cmp(a, b) >= 0 && cmp(b, c) > 0
    ensures cmp(a, c) > 0
  {
    if cmp(a, b) == 0 {
      assert Sign(cmp(a, c)) == Sign(cmp(b, c));
    }
  }

  // ------------------------------------------------------ derived comparators

  /** The comparator built from a "sorts before" predicate: -1 when the first
      argument sorts before the second, 1 when the second sorts before the first,
      0 otherwise. */
  function PredicateCompare<T>(before: (T, T) -> bool, o1: T, o2: T): (c: int)
    ensures c == -1 <==> before(o1, o2)
    ensures c == 1 <==> !before(o1, o2) && before(o2, o1)
    ensures c == 0 <==> !before(o1, o2) && !before(o2, o1)
  {
    if before(o1, o2) then -1 else if before(o2, o1) then 1 else 0
  }

  function PredicateComparator<T>(before: (T, T) -> bool): Comparator<T> {
    (o1: T, o2: T) => PredicateCompare(before, o1, o2)
  }

  /** An irreflexive predicate compares an element as equal to itself, and an
      asymmetric one yields an antisymmetric comparator. */
  lemma PredicateCompareSymmetry<T>(before: (T, T) -> bool, a: T, b: T)
    ensures !before(a, a) ==> PredicateCompare(before, a, a) == 0
    ensures !(before(a, b) && before(b, a)) ==> PredicateCompare(before, a, b) == -PredicateCompare(before, b, a)
  {
  }

  /** `before` is a strict weak order: irreflexive, transitive, and
      incomparability is transitive. */
  ghost predicate StrictWeakOrder<T(!new)>(before: (T, T) -> bool) {
    && (forall x :: !before(x, x))
    && (forall x, y, z :: before(x, y) && before(y, z) ==> before(x, z))
    && (forall x, y, z :: Incomparable(before, x, y) && Incomparable(before, y, z) ==> Incomparable(before, x, z))
  }

  ghost predicate Incomparable<T>(before: (T, T) -> bool, x: T, y: T) {
    !before(x, y) && !before(y, x)
  }

  lemma Transitive<T(!new)>(before: (T, T) -> bool, x: T, y: T, z: T)
    requires StrictWeakOrder(before)
    ensures before(x, y) && before(y, z) ==> before(x, z)
  {
  }

  lemma IncomparableTransitive<T(!new)>(before: (T, T) -> bool, x: T, y: T, z: T)
    requires StrictWeakOrder(before)
    ensures Incomparable(before, x, y) && Incomparable(before, y, z) ==> Incomparable(before, x, z)
  {
  }

  /** A strict weak order yields a comparator that meets the Comparator contract. */
  lemma PredicateComparatorValid<T(!new)>(before: (T, T) -> bool)
    requires StrictWeakOrder(before)
    ensures ValidComparator(PredicateComparator(before))
  {
    var cmp := PredicateComparator(before);
    forall x, y
      ensures Sign(cmp(x, y)) == -Sign(cmp(y, x))
    {
      Transitive(before, x, y, x);
      assert !before(x, x);
    }
    forall x, y, z | cmp(x, y) > 0 && cmp(y, z) > 0
      ensures cmp(x, z) > 0
    {
      Transitive(before, z, y, x);
      Transitive(before, x, z, x);
      assert !before(x, x);
    }
    forall x, y, z | cmp(x, y) == 0
      ensures Sign(cmp(x, z)) == Sign(cmp(y, z))
    {
      Transitive(before, x, z, y);
      Transitive(before, y, z, x);
      IncomparableTransitive(before, x, y, z);
      IncomparableTransitive(before, y, x, z);
    }
  }

  /** `Integer.compareTo`. */
  function IntCompare(a: int, b: int): (c: int)
    ensures c == Sign(a - b)
  {
    if a < b then -1 else if a > b then 1 else 0
  }

  /** Natural order on integers. */
  function NaturalOrder(): Comparator<int> {
    (a: int, b: int) => IntCompare(a, b)
  }

  lemma NaturalOrderValid()
    ensures ValidComparator(NaturalOrder())
  {
  }

  /** `Comparators.byFunction`: compares the keys an ordering function derives. */
  function KeyComparator<T>(key: T -> int): Comparator<T> {
    (a: T, b: T) => IntCompare(key(a), key(b))
  }

  /** Ordering by a key meets the Comparator contract. */
  lemma KeyComparatorValid<T(!new)>(key: T -> int)
    ensures ValidComparator(KeyComparator(key))
  {
  }

  /** The reversed comparator, `-compare(o1, o2)`. */
  function Negated<T>(cmp: Comparator<T>): Comparator<T> {
    (a: T, b: T) => -cmp(a, b)
  }

  lemma NegatedValid<T(!new)>(cmp: Comparator<T>)
    requires ValidComparator(cmp)
    ensures ValidComparator(Negated(cmp))
  {
    var n := Negated(cmp);
    forall x, y, z | n(x, y) > 0 && n(y, z) > 0
      ensures n(x, z) > 0
    {
      Flip(cmp, x, y);
      Flip(cmp, y, z);
      Flip(cmp, x, z);
      assert cmp(z, y) > 0 && cmp(y, x) > 0;
    }
  }

  // ------------------------------------------------------------- stable sort

  /** Places `x` before the first element it does not exceed; the elements not
      after `x` keep their places relative to it. */
  function Insert<T>(x: T, t: seq<T>, cmp: Comparator<T>): (r: seq<T>)
    ensures multiset(r) == multiset(t) + multiset{x}
    ensures |r| == |t| + 1
  {
    if t == [] then [x]
    else if cmp(x, t[0]) <= 0 then [x] + t
    else
      assert t == [t[0]] + t[1..];
      [t[0]] + Insert(x, t[1..], cmp)
  }

  /** The number of leading elements of `t` that `x` exceeds. */
  function InsertionPoint<T>(x: T, t: seq<T>, cmp: Comparator<T>): (k: nat)
    ensures k <= |t|
  {
    if t == [] || cmp(x, t[0]) <= 0 then 0 else 1 + InsertionPoint(x, t[1..], cmp)
  }

  /** `r` is `t` with `x` placed at position `k`: after every element that `x`
      exceeds, and before the first element that it does not exceed. */
  ghost predicate InsertedAt<T>(x: T, t: seq<T>, cmp: Comparator<T>, r: seq<T>, k: int) {
    && 0 <= k <= |t|
    && r == t[..k] + [x] + t[k..]
    && (forall j :: 0 <= j < k ==> cmp(x, t[j]) > 0)
    && (k < |t| ==> cmp(x, t[k]) <= 0)
  }

  lemma ConsAssociates<T>(h: T, a: seq<T>, x: T, b: seq<T>)
    ensures [h] + (a + [x] + b) == ([h] + a) + [x] + b
  {
  }

  /** Insert's result is `t` split at the insertion point with `x` in between. */
  lemma {:induction false} InsertShape<T>(x: T, t: seq<T>, cmp: Comparator<T>)
    ensures Insert(x, t, cmp) == t[..InsertionPoint(x, t, cmp)] + [x] + t[InsertionPoint(x, t, cmp)..]
    decreases t
  {
    if t == [] {
    } else if cmp(x, t[0]) <= 0 {
      assert t[..0] == [] && t[0..] == t;
    } else {
      var k := InsertionPoint(x, t[1..], cmp);
      InsertShape(x, t[1..], cmp);
      assert t[..k + 1] == [t[0]] + t[1..][..k];
      assert t[k + 1..] == t[1..][k..];
      ConsAssociates(t[0], t[1..][..k], x, t[1..][k..]);
    }
  }

  /** `x` exceeds every element before the insertion point and not the one at it. */
  lemma {:induction false} InsertionPointBounds<T>(x: T, t: seq<T>, cmp: Comparator<T>)
    ensures forall j :: 0 <= j < InsertionPoint(x, t, cmp) ==> cmp(x, t[j]) > 0
    ensures InsertionPoint(x, t, cmp) < |t| ==> cmp(x, t[InsertionPoint(x, t, cmp)]) <= 0
    decreases t
  {
    if t != [] && cmp(x, t[0]) > 0 {
      var k := InsertionPoint(x, t[1..], cmp);
      InsertionPointBounds(x, t[1..], cmp);
      forall j | 0 <= j < k + 1
        ensures cmp(x, t[j]) > 0
      {
        if j > 0 {
          assert t[j] == t[1..][j - 1];
        }
      }
      if k + 1 < |t| {
        assert t[k + 1] == t[1..][k];
      }
    }
  }

  /** Insert puts `x` right before the first element it does not exceed and
      leaves every other element where it was. */
  lemma InsertPlaces<T>(x: T, t: seq<T>, cmp: Comparator<T>)
    ensures InsertedAt(x, t, cmp, Insert(x, t, cmp), InsertionPoint(x, t, cmp))
  {
    InsertShape(x, t, cmp);
    InsertionPointBounds(x, t, cmp);
  }

  /** The stable sort: insertion sort, later elements first, so that equal
      elements keep their original order. Every sorting branch (the list's own
      sortThis, the ArrayList engine and Collections.sort) is a stable sort. */
  function StableSort<T>(s: seq<T>, cmp: Comparator<T>): seq<T> {
    if s == [] then [] else Insert(s[0], StableSort(s[1..], cmp), cmp)
  }

  ghost predicate Sorted<T>(s: seq<T>, cmp: Comparator<T>) {
    forall i, j :: 0 <= i < j < |s| ==> cmp(s[i], s[j]) <= 0
  }

  /** Sorting permutes the elements. */
  lemma {:induction false} StableSortPermutes<T>(s: seq<T>, cmp: Comparator<T>)
    ensures multiset(StableSort(s, cmp)) == multiset(s)
  {
    if s != [] {
      StableSortPermutes(s[1..], cmp);
      assert s == [s[0]] + s[1..];
    }
  }

  /** Sequences of at most one element are left as they are. */
  lemma StableSortSmall<T>(s: seq<T>, cmp: Comparator<T>)
    requires |s| <= 1
    ensures StableSort(s, cmp) == s
  {
    if |s| == 1 {
      assert s[1..] == [];
    }
  }

  /** An element at most every element of a sorted sequence can go in front. */
  lemma SortedCons<T>(x: T, t: seq<T>, cmp: Comparator<T>)
    requires Sorted(t, cmp)
    requires forall j :: 0 <= j < |t| ==> cmp(x, t[j]) <= 0
    ensures Sorted([x] + t, cmp)
  {
    var r := [x] + t;
    forall i, j | 0 <= i < j < |r|
      ensures cmp(r[i], r[j]) <= 0
    {
      assert r[j] == t[j - 1];
      if i > 0 {
        assert r[i] == t[i - 1];
      }
    }
  }

  /** The head of a sorted sequence stays in front when `x` goes into its tail. */
  lemma InsertAfterHead<T>(x: T, t: seq<T>, cmp: Comparator<T>)
    requires |t| > 0 && Sorted(t, cmp) && cmp(t[0], x) <= 0
    requires Sorted(Insert(x, t[1..], cmp), cmp)
    ensures Sorted([t[0]] + Insert(x, t[1..], cmp), cmp)
  {
    var rest := Insert(x, t[1..], cmp);
    forall j | 0 <= j < |rest|
      ensures cmp(t[0], rest[j]) <= 0
    {
      var e := rest[j];
      assert e in multiset(rest);
      if e != x {
        assert e in multiset(t[1..]);
        var k :| 0 <= k < |t[1..]| && t[1..][k] == e;
        assert t[k + 1] == e;
      }
    }
    SortedCons(t[0], rest, cmp);
  }

  lemma {:induction false} InsertSorted<T(!new)>(x: T, t: seq<T>, cmp: Comparator<T>)
    requires ValidComparator(cmp) && Sorted(t, cmp)
    ensures Sorted(Insert(x, t, cmp), cmp)
  {
    if t == [] {
    } else if cmp(x, t[0]) <= 0 {
      forall j | 0 <= j < |t|
        ensures cmp(x, t[j]) <= 0
      {
        if j > 0 {
          AtMostTransitive(cmp, x, t[0], t[j]);
        }
      }
      SortedCons(x, t, cmp);
    } else {
      InsertSorted(x, t[1..], cmp);
      Flip(cmp, x, t[0]);
      InsertAfterHead(x, t, cmp);
    }
  }

  /** For a comparator meeting its contract the result is sorted. */
  lemma {:induction false} StableSortSorted<T(!new)>(s: seq<T>, cmp: Comparator<T>)
    requires ValidComparator(cmp)
    ensures Sorted(StableSort(s, cmp), cmp)
  {
    if s != [] {
      StableSortSorted(s[1..], cmp);
      InsertSorted(s[0], StableSort(s[1..], cmp), cmp);
    }
  }

  /** The elements that compare as equal to `k`. */
  function EquivalentTo<T>(cmp: Comparator<T>, k: T): T -> bool {
    e => cmp(e, k) == 0
  }

  /** Any two elements equivalent to `k` compare as equal. */
  ghost predicate ClassClosed<T(!new)>(cmp: Comparator<T>, k: T) {
    forall a, b :: cmp(a, k) == 0 && cmp(b, k) == 0 ==> cmp(a, b) == 0
  }

  lemma ClassClosedValid<T(!new)>(cmp: Comparator<T>, k: T)
    requires ValidComparator(cmp)
    ensures ClassClosed(cmp, k)
  {
    forall a, b | cmp(a, k) == 0 && cmp(b, k) == 0
      ensures cmp(a, b) == 0
    {
      Flip(cmp, b, k);
      SameClass(cmp, a, k, b);
    }
  }

  lemma FilterCons<T>(h: T, r: seq<T>, q: T -> bool)
    ensures Filter([h] + r, q) == (if q(h) then [h] else []) + Filter(r, q)
  {
    assert ([h] + r)[1..] == r;
  }

  /** Two adjacent elements that are not both kept can trade places under a filter. */
  lemma FilterSwap<T>(a: T, b: T, r: seq<T>, q: T -> bool)
    requires !(q(a) && q(b))
    ensures (if q(a) then [a] else []) + ((if q(b) then [b] else []) + r)
         == (if q(b) then [b] else []) + ((if q(a) then [a] else []) + r)
  {
  }

  lemma {:induction false} InsertStable<T(!new)>(x: T, t: seq<T>, cmp: Comparator<T>, k: T)
    requires ClassClosed(cmp, k)
    ensures Filter(Insert(x, t, cmp), EquivalentTo(cmp, k))
         == (if cmp(x, k) == 0 then [x] else []) + Filter(t, EquivalentTo(cmp, k))
  {
    var q := EquivalentTo(cmp, k);
    if t == [] {
      FilterCons(x, [], q);
    } else if cmp(x, t[0]) <= 0 {
      FilterCons(x, t, q);
    } else {
      var rest := Insert(x, t[1..], cmp);
      InsertStable(x, t[1..], cmp, k);
      FilterCons(t[0], rest, q);
      assert t == [t[0]] + t[1..];
      FilterCons(t[0], t[1..], q);
      // x compares greater than t[0], so the two are not both equivalent to k
      assert !(q(x) && q(t[0]));
      FilterSwap(t[0], x, Filter(t[1..], q), q);
    }
  }

  /** Stability: the elements equal to any `k` appear in the result in the same
      order as in the input. */
  lemma {:induction false} StableSortStable<T(!new)>(s: seq<T>, cmp: Comparator<T>, k: T)
    requires ValidComparator(cmp)
    ensures Filter(StableSort(s, cmp), EquivalentTo(cmp, k)) == Filter(s, EquivalentTo(cmp, k))
  {
    if s != [] {
      StableSortStable(s[1..], cmp, k);
      ClassClosedValid(cmp, k);
      InsertStable(s[0], StableSort(s[1..], cmp), cmp, k);
    }
  }

  // ------------------------------------------------------------- extremes

  /** One step of MinComparatorProcedure: a later element replaces the current
      result only when it compares strictly less. */
  function MinStep<T>(cmp: Comparator<T>): (T, T) -> T {
    (best: T, x: T) => if cmp(x, best) < 0 then x else best
  }

  /** The minimum by `cmp`, keeping the first seen among equals. */
  function MinOf<T>(xs: seq<T>, cmp: Comparator<T>): T
    requires |xs| > 0
  {
    InjectInto(xs[0], xs[1..], MinStep(cmp))
  }

  /** The maximum by `cmp`, keeping the first seen among equals. */
  function MaxOf<T>(xs: seq<T>, cmp: Comparator<T>): T
    requires |xs| > 0
  {
    MinOf(xs, Negated(cmp))
  }

  /** `xs[k]` is the first minimum: every earlier element is greater and no later
      element is less. */
  ghost predicate FirstMinimumAt<T>(xs: seq<T>, cmp: Comparator<T>, k: int) {
    && 0 <= k < |xs|
    && (forall j :: 0 <= j < k ==> cmp(xs[j], xs[k]) > 0)
    && (forall j :: k < j < |xs| ==> cmp(xs[j], xs[k]) >= 0)
  }

  lemma MinOfSnoc<T>(p: seq<T>, x: T, cmp: Comparator<T>)
    requires |p| > 0
    ensures MinOf(p + [x], cmp) == MinStep(cmp)(MinOf(p, cmp), x)
  {
    assert (p + [x])[1..] == p[1..] + [x];
    InjectIntoSnoc(p[0], p[1..], x, MinStep(cmp));
  }

  /** One more element either becomes the first minimum, when strictly less
      than the current one, or leaves it in place. */
  lemma MinStepKeepsFirstMinimum<T(!new)>(p: seq<T>, x: T, cmp: Comparator<T>, k: int)
    requires ValidComparator(cmp) && FirstMinimumAt(p, cmp, k)
    ensures FirstMinimumAt(p + [x], cmp, if cmp(x, p[k]) < 0 then |p| else k)
  {
    var q := p + [x];
    Reflexive(cmp, p[k]);
    if cmp(x, p[k]) < 0 {
      Flip(cmp, x, p[k]);
      forall j | 0 <= j < |p|
        ensures cmp(q[j], x) > 0
      {
        assert q[j] == p[j];
        AtLeastThenGreater(cmp, p[j], p[k], x);
      }
    } else {
      assert forall j :: k < j < |p| ==> q[j] == p[j];
    }
  }

  /** For a comparator meeting its contract, MinOf is the first minimum. */
  lemma {:induction false} MinOfIsFirstMinimum<T(!new)>(xs: seq<T>, cmp: Comparator<T>)
    requires ValidComparator(cmp) && |xs| > 0
    ensures exists k :: FirstMinimumAt(xs, cmp, k) && xs[k] == MinOf(xs, cmp)
    decreases |xs|
  {
    if |xs| == 1 {
      assert FirstMinimumAt(xs, cmp, 0);
    } else {
      var p, x := xs[..|xs| - 1], xs[|xs| - 1];
      assert xs == p + [x];
      MinOfIsFirstMinimum(p, cmp);
      var k :| FirstMinimumAt(p, cmp, k) && p[k] == MinOf(p, cmp);
      MinOfSnoc(p, x, cmp);
      MinStepKeepsFirstMinimum(p, x, cmp, k);
      var k' := if cmp(x, p[k]) < 0 then |p| else k;
      assert xs[k'] == MinOf(xs, cmp);
    }
  }

  /** For a comparator meeting its contract, MaxOf is the first maximum. */
  lemma MaxOfIsFirstMaximum<T(!new)>(xs: seq<T>, cmp: Comparator<T>)
    requires ValidComparator(cmp) && |xs| > 0
    ensures exists k :: FirstMinimumAt(xs, Negated(cmp), k) && xs[k] == MaxOf(xs, cmp)
  {
    NegatedValid(cmp);
    MinOfIsFirstMinimum(xs, Negated(cmp));
  }

  lemma NaturalFirstMinimum(xs: seq<int>)
    requires |xs| > 0
    ensures exists k :: FirstMinimumAt(xs, NaturalOrder(), k) && xs[k] == MinOf(xs, NaturalOrder())
    ensures exists k :: FirstMinimumAt(xs, Negated(NaturalOrder()), k) && xs[k] == MaxOf(xs, NaturalOrder())
  {
    NaturalOrderValid();
    MinOfIsFirstMinimum(xs, NaturalOrder());
    MaxOfIsFirstMaximum(xs, NaturalOrder());
  }

  /** In natural order the minimum is an element no element undercuts. */
  lemma NaturalMinimum(xs: seq<int>)
    requires |xs| > 0
    ensures MinOf(xs, NaturalOrder()) in xs
    ensures forall x :: x in xs ==> MinOf(xs, NaturalOrder()) <= x
  {
    var cmp := NaturalOrder();
    NaturalFirstMinimum(xs);
    var k :| FirstMinimumAt(xs, cmp, k) && xs[k] == MinOf(xs, cmp);
    forall x | x in xs
      ensures xs[k] <= x
    {
      var j :| 0 <= j < |xs| && xs[j] == x;
      if j < k {
        assert cmp(xs[j], xs[k]) > 0;
      } else if j > k {
        assert cmp(xs[j], xs[k]) >= 0;
      }
    }
  }

  /** In natural order the maximum is an element no element exceeds. */
  lemma NaturalMaximum(xs: seq<int>)
    requires |xs| > 0
    ensures MaxOf(xs, NaturalOrder()) in xs
    ensures forall x :: x in xs ==> MaxOf(xs, NaturalOrder()) >= x
  {
    var cmp := Negated(NaturalOrder());
    NaturalFirstMinimum(xs);
    var k :| FirstMinimumAt(xs, cmp, k) && xs[k] == MaxOf(xs, NaturalOrder());
    forall x | x in xs
      ensures xs[k] >= x
    {
      var j :| 0 <= j < |xs| && xs[j] == x;
      if j < k {
        assert cmp(xs[j], xs[k]) > 0;
      } else if j > k {
        assert cmp(xs[j], xs[k]) >= 0;
      }
    }
  }
}
