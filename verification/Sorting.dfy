/** The stable sort the Python scripts get from `sorted` and `list.sort`, and the
    lexicographic order Python uses to compare strings. */
module Sorting {

  ghost predicate TotalPreorder<T(!new)>(leq: (T, T) -> bool) {
    && (forall x, y :: leq(x, y) || leq(y, x))
    && (forall x, y, z :: leq(x, y) && leq(y, z) ==> leq(x, z))
  }

  ghost predicate Antisymmetric<T(!new)>(leq: (T, T) -> bool) {
    forall x, y :: leq(x, y) && leq(y, x) ==> x == y
  }

  ghost predicate Sorted<T>(leq: (T, T) -> bool, s: seq<T>) {
    forall i, j :: 0 <= i < j < |s| ==> leq(s[i], s[j])
  }

  ghost predicate Distinct<T>(s: seq<T>) {
    forall i, j :: 0 <= i < j < |s| ==> s[i] != s[j]
  }

  function Insert<T>(leq: (T, T) -> bool, x: T, s: seq<T>): (r: seq<T>)
    ensures |r| == |s| + 1 && multiset(r) == multiset{x} + multiset(s)
  {
    if s == [] || leq(x, s[0]) then [x] + s
    else
      assert s == [s[0]] + s[1..];
      [s[0]] + Insert(leq, x, s[1..])
  }

  /** Stable: an element goes in front of the equivalent ones that followed it. */
  function Sort<T>(leq: (T, T) -> bool, s: seq<T>): (r: seq<T>)
    ensures |r| == |s| && multiset(r) == multiset(s)
  {
    if s == [] then []
    else
      assert s == [s[0]] + s[1..];
      Insert(leq, s[0], Sort(leq, s[1..]))
  }

  function Filter<T>(keep: T -> bool, s: seq<T>): (r: seq<T>)
    ensures forall x :: x in r ==> x in s && keep(x)
    ensures forall x :: x in s && keep(x) ==> x in r
  {
    if s == [] then []
    else (if keep(s[0]) then [s[0]] else []) + Filter(keep, s[1..])
  }

  function Map<T, U>(f: T -> U, s: seq<T>): (r: seq<U>)
    ensures |r| == |s| && forall i :: 0 <= i < |s| ==> r[i] == f(s[i])
  {
    if s == [] then [] else [f(s[0])] + Map(f, s[1..])
  }

  function Reverse<T>(s: seq<T>): (r: seq<T>)
    ensures |r| == |s|
    ensures forall i :: 0 <= i < |s| ==> r[i] == s[|s| - 1 - i]
  {
    if s == [] then [] else Reverse(s[1..]) + [s[0]]
  }

  lemma {:induction false} ReverseElements<T>(s: seq<T>)
    ensures forall x :: x in Reverse(s) <==> x in s
    ensures Distinct(s) ==> Distinct(Reverse(s))
  {
    forall x | x in s ensures x in Reverse(s) {
      var i :| 0 <= i < |s| && s[i] == x;
      assert Reverse(s)[|s| - 1 - i] == x;
    }
  }

  lemma {:induction false} ReverseSorted<T>(leq: (T, T) -> bool, s: seq<T>)
    requires Sorted(leq, s)
    ensures forall i, j :: 0 <= i < j < |s| ==> leq(Reverse(s)[j], Reverse(s)[i])
  {
  }

  lemma {:induction false} SameElements<T>(a: seq<T>, b: seq<T>)
    requires multiset(a) == multiset(b)
    ensures |a| == |b| && forall x :: x in a <==> x in b
  {
    assert |multiset(a)| == |a| && |multiset(b)| == |b|;
    assert forall x :: x in a <==> x in multiset(a);
    assert forall x :: x in b <==> x in multiset(b);
  }

  lemma {:induction false} InsertSorted<T(!new)>(leq: (T, T) -> bool, x: T, s: seq<T>)
    requires TotalPreorder(leq) && Sorted(leq, s)
    ensures Sorted(leq, Insert(leq, x, s))
  {
    if s != [] && !leq(x, s[0]) {
      var rest := Insert(leq, x, s[1..]);
      InsertSorted(leq, x, s[1..]);
      forall y | y in rest ensures leq(s[0], y) {
        assert y in multiset(rest);
        assert y == x || y in s[1..];
      }
    }
  }

  lemma {:induction false} SortSorted<T(!new)>(leq: (T, T) -> bool, s: seq<T>)
    requires TotalPreorder(leq)
    ensures Sorted(leq, Sort(leq, s))
  {
    if s != [] {
      SortSorted(leq, s[1..]);
      InsertSorted(leq, s[0], Sort(leq, s[1..]));
    }
  }

  /** Sorting an already sorted list changes nothing, whatever ties it holds. */
  lemma {:induction false} SortFixed<T(!new)>(leq: (T, T) -> bool, s: seq<T>)
    requires Sorted(leq, s)
    ensures Sort(leq, s) == s
  {
    if s != [] {
      SortFixed(leq, s[1..]);
    }
  }

  lemma {:induction false} FilterCons<T>(keep: T -> bool, x: T, s: seq<T>)
    ensures Filter(keep, [x] + s) == if keep(x) then [x] + Filter(keep, s) else Filter(keep, s)
  {
    assert ([x] + s)[1..] == s;
  }

  lemma {:induction false} FilterAppendStep<T>(keep: T -> bool, x: T, t: seq<T>, b: seq<T>)
    requires Filter(keep, t + b) == Filter(keep, t) + Filter(keep, b)
    ensures Filter(keep, ([x] + t) + b) == Filter(keep, [x] + t) + Filter(keep, b)
  {
    assert ([x] + t) + b == [x] + (t + b);
    FilterCons(keep, x, t);
    FilterCons(keep, x, t + b);
  }

  lemma {:induction false} FilterAppend<T>(keep: T -> bool, a: seq<T>, b: seq<T>)
    ensures Filter(keep, a + b) == Filter(keep, a) + Filter(keep, b)
  {
    if a == [] {
      assert a + b == b;
    } else {
      FilterAppend(keep, a[1..], b);
      FilterAppendStep(keep, a[0], a[1..], b);
      assert a == [a[0]] + a[1..];
    }
  }

  lemma {:induction false} FilterTwo<T>(keep: T -> bool, s: seq<T>, i: nat, j: nat)
    requires i < j < |s| && keep(s[i]) && keep(s[j])
    ensures |Filter(keep, s)| >= 2
  {
    if i > 0 {
      FilterTwo(keep, s[1..], i - 1, j - 1);
    } else {
      assert s[1..][j - 1] == s[j];
      assert s[j] in Filter(keep, s[1..]);
    }
  }

  lemma {:induction false} FilterPair<T>(keep: T -> bool, s: seq<T>) returns (i: nat, j: nat)
    requires |Filter(keep, s)| >= 2
    ensures i < j < |s| && keep(s[i]) && keep(s[j])
  {
    var tail := s[1..];
    if keep(s[0]) {
      assert Filter(keep, tail)[0] in Filter(keep, tail);
      var k :| 0 <= k < |tail| && tail[k] == Filter(keep, tail)[0];
      i, j := 0, k + 1;
    } else {
      i, j := FilterPair(keep, tail);
      i, j := i + 1, j + 1;
    }
  }

  lemma {:induction false} InsertCons<T>(leq: (T, T) -> bool, x: T, y: T, s: seq<T>)
    ensures Insert(leq, x, [y] + s) == if leq(x, y) then [x] + ([y] + s) else [y] + Insert(leq, x, s)
  {
    assert ([y] + s)[1..] == s;
  }

  /** An element below everything in the list goes to the front. */
  lemma {:induction false} InsertFront<T>(leq: (T, T) -> bool, x: T, s: seq<T>)
    requires forall y :: y in s ==> leq(x, y)
    ensures Insert(leq, x, s) == [x] + s
  {
  }

  lemma {:induction false} SortedHead<T(!new)>(leq: (T, T) -> bool, x: T, s: seq<T>)
    requires TotalPreorder(leq) && Sorted(leq, s) && s != [] && leq(x, s[0])
    ensures forall y :: y in s ==> leq(x, y)
  {
    forall y | y in s ensures leq(x, y) {
      var i :| 0 <= i < |s| && s[i] == y;
      assert i == 0 || leq(s[0], s[i]);
    }
  }

  lemma {:induction false} FilterInsertStep<T>(leq: (T, T) -> bool, keep: T -> bool, x: T, y: T, t: seq<T>)
    requires !leq(x, y)
    requires Filter(keep, Insert(leq, x, t)) == if keep(x) then Insert(leq, x, Filter(keep, t)) else Filter(keep, t)
    ensures Filter(keep, Insert(leq, x, [y] + t))
         == if keep(x) then Insert(leq, x, Filter(keep, [y] + t)) else Filter(keep, [y] + t)
  {
    InsertCons(leq, x, y, t);
    FilterCons(keep, y, t);
    FilterCons(keep, y, Insert(leq, x, t));
    InsertCons(leq, x, y, Filter(keep, t));
  }

  lemma {:induction false} FilterInsert<T(!new)>(leq: (T, T) -> bool, keep: T -> bool, x: T, s: seq<T>)
    requires TotalPreorder(leq) && Sorted(leq, s)
    ensures Filter(keep, Insert(leq, x, s))
         == if keep(x) then Insert(leq, x, Filter(keep, s)) else Filter(keep, s)
  {
    if s == [] || leq(x, s[0]) {
      FilterCons(keep, x, s);
      if s != [] {
        SortedHead(leq, x, s);
      }
      InsertFront(leq, x, Filter(keep, s));
    } else {
      FilterInsert(leq, keep, x, s[1..]);
      FilterInsertStep(leq, keep, x, s[0], s[1..]);
      assert s == [s[0]] + s[1..];
    }
  }

  /** Stability: dropping elements after a sort is sorting what is left. */
  lemma {:induction false} FilterSort<T(!new)>(leq: (T, T) -> bool, keep: T -> bool, s: seq<T>)
    requires TotalPreorder(leq)
    ensures Filter(keep, Sort(leq, s)) == Sort(leq, Filter(keep, s))
  {
    if s != [] {
      var x, t := s[0], s[1..];
      assert s == [x] + t;
      SortSorted(leq, t);
      FilterInsert(leq, keep, x, Sort(leq, t));
      FilterSort(leq, keep, t);
      SortCons(leq, x, Filter(keep, t));
      FilterCons(keep, x, t);
    }
  }

  lemma {:induction false} SortCons<T>(leq: (T, T) -> bool, x: T, s: seq<T>)
    ensures Sort(leq, [x] + s) == Insert(leq, x, Sort(leq, s))
  {
    assert ([x] + s)[1..] == s;
  }

  lemma {:induction false} MapInsert<T, U>(leq: (T, T) -> bool, keyLeq: (U, U) -> bool, f: T -> U, x: T, s: seq<T>)
    requires forall y :: y in s ==> leq(x, y) == keyLeq(f(x), f(y))
    ensures Map(f, Insert(leq, x, s)) == Insert(keyLeq, f(x), Map(f, s))
  {
    if s != [] && !leq(x, s[0]) {
      MapInsert(leq, keyLeq, f, x, s[1..]);
      assert Map(f, s)[1..] == Map(f, s[1..]);
    }
  }

  /** Sorting by a key and then taking the keys is sorting the keys. */
  lemma {:induction false} MapSort<T(!new), U>(leq: (T, T) -> bool, keyLeq: (U, U) -> bool, f: T -> U, s: seq<T>)
    requires forall x, y :: leq(x, y) == keyLeq(f(x), f(y))
    ensures Map(f, Sort(leq, s)) == Sort(keyLeq, Map(f, s))
  {
    if s != [] {
      MapSort(leq, keyLeq, f, s[1..]);
      MapInsert(leq, keyLeq, f, s[0], Sort(leq, s[1..]));
      SortCons(keyLeq, f(s[0]), Map(f, s[1..]));
    }
  }

  function Without<T>(s: seq<T>, i: nat): seq<T>
    requires i < |s|
  {
    s[..i] + s[i + 1..]
  }

  lemma {:induction false} WithoutOne<T>(s: seq<T>, i: nat)
    requires i < |s|
    ensures multiset(s) == multiset(Without(s, i)) + multiset{s[i]}
  {
    assert s == s[..i] + [s[i]] + s[i + 1..];
  }

  lemma {:induction false} MapWithout<T, U>(f: T -> U, s: seq<T>, i: nat)
    requires i < |s|
    ensures Map(f, Without(s, i)) == Without(Map(f, s), i)
  {
  }

  lemma {:induction false} MapMultiset<T, U>(f: T -> U, a: seq<T>, b: seq<T>)
    requires multiset(a) == multiset(b)
    ensures multiset(Map(f, a)) == multiset(Map(f, b))
    decreases |a|
  {
    SameElements(a, b);
    if |a| > 0 {
      assert a[0] in a;
      var i: nat :| i < |b| && b[i] == a[0];
      WithoutOne(a, 0);
      WithoutOne(b, i);
      assert multiset(Without(a, 0)) == multiset(a) - multiset{a[0]};
      assert multiset(Without(b, i)) == multiset(b) - multiset{b[i]};
      MapMultiset(f, Without(a, 0), Without(b, i));
      MapWithout(f, a, 0);
      MapWithout(f, b, i);
      WithoutOne(Map(f, a), 0);
      WithoutOne(Map(f, b), i);
    }
  }

  /** A measure of lists adds up when two of them are joined. */
  ghost predicate AddsUp<T>(f: seq<T> -> real, a: seq<T>, b: seq<T>) {
    f(a + b) == f(a) + f(b)
  }

  lemma {:induction false} AddsUpWithout<T(!new)>(f: seq<T> -> real, s: seq<T>, i: nat)
    requires i < |s| && forall x, y :: AddsUp(f, x, y)
    ensures f(s) == f(Without(s, i)) + f([s[i]])
  {
    assert s == (s[..i] + [s[i]]) + s[i + 1..];
    assert AddsUp(f, s[..i] + [s[i]], s[i + 1..]) && AddsUp(f, s[..i], [s[i]]) && AddsUp(f, s[..i], s[i + 1..]);
  }

  /** Such a measure does not depend on the order. */
  lemma {:induction false} AdditivePermutation<T(!new)>(f: seq<T> -> real, a: seq<T>, b: seq<T>)
    requires multiset(a) == multiset(b) && forall x, y :: AddsUp(f, x, y)
    ensures f(a) == f(b)
    decreases |a|
  {
    SameElements(a, b);
    if |a| > 0 {
      assert a[0] in a;
      var i: nat :| i < |b| && b[i] == a[0];
      WithoutOne(a, 0);
      WithoutOne(b, i);
      assert multiset(Without(a, 0)) == multiset(a) - multiset{a[0]};
      assert multiset(Without(b, i)) == multiset(b) - multiset{b[i]};
      AdditivePermutation(f, Without(a, 0), Without(b, i));
      AddsUpWithout(f, a, 0);
      AddsUpWithout(f, b, i);
    } else {
      assert a == b;
    }
  }

  lemma {:induction false} FilterMultiset<T(!new)>(keep: T -> bool, s: seq<T>, x: T)
    ensures multiset(Filter(keep, s))[x] == if keep(x) then multiset(s)[x] else 0
  {
    if s != [] {
      assert s == [s[0]] + s[1..];
      FilterMultiset(keep, s[1..], x);
    }
  }

  /** A permutation of distinct elements is distinct. */
  lemma {:induction false} DistinctByCount<T>(a: seq<T>, b: seq<T>)
    requires Distinct(a) && multiset(a) == multiset(b)
    ensures Distinct(b)
  {
    forall i, j | 0 <= i < j < |b| ensures b[i] != b[j] {
      if b[i] == b[j] {
        var x := b[i];
        assert b == b[..i] + [x] + b[i + 1..j] + [x] + b[j + 1..];
        assert multiset(b)[x] >= 2;
        CountDistinct(a, x);
        assert false;
      }
    }
  }

  lemma {:induction false} CountDistinct<T>(a: seq<T>, x: T)
    requires Distinct(a)
    ensures multiset(a)[x] <= 1
  {
    if a != [] {
      assert a == [a[0]] + a[1..];
      CountDistinct(a[1..], x);
    }
  }

  lemma {:induction false} TailMultiset<T>(s: seq<T>)
    requires s != []
    ensures multiset(s[1..]) == multiset(s) - multiset{s[0]}
  {
    assert s == [s[0]] + s[1..];
  }

  lemma {:induction false} SameHead<T(!new)>(leq: (T, T) -> bool, a: seq<T>, b: seq<T>)
    requires Antisymmetric(leq) && Sorted(leq, a) && Sorted(leq, b)
    requires a != [] && b != [] && a[0] in b && b[0] in a
    ensures a[0] == b[0]
  {
    var i :| 0 <= i < |b| && b[i] == a[0];
    var j :| 0 <= j < |a| && a[j] == b[0];
    assert i > 0 ==> leq(b[0], a[0]);
    assert j > 0 ==> leq(a[0], b[0]);
  }

  lemma {:induction false} TailsAgree<T>(a: seq<T>, b: seq<T>)
    requires a != [] && b != [] && a[0] == b[0] && multiset(a) == multiset(b)
    ensures multiset(a[1..]) == multiset(b[1..])
  {
    TailMultiset(a);
    TailMultiset(b);
  }

  /** Under an antisymmetric order a multiset has one sorted arrangement. */
  lemma {:induction false} SortedUnique<T(!new)>(leq: (T, T) -> bool, a: seq<T>, b: seq<T>)
    requires Antisymmetric(leq) && Sorted(leq, a) && Sorted(leq, b) && multiset(a) == multiset(b)
    ensures a == b
  {
    SameElements(a, b);
    if a != [] {
      assert a[0] in a && b[0] in b;
      SameHead(leq, a, b);
      TailsAgree(a, b);
      SortedUnique(leq, a[1..], b[1..]);
      assert a == [a[0]] + a[1..] && b == [b[0]] + b[1..];
    }
  }

  lemma {:induction false} SortAgrees<T(!new)>(leq: (T, T) -> bool, a: seq<T>, b: seq<T>)
    requires TotalPreorder(leq) && Antisymmetric(leq) && multiset(a) == multiset(b)
    ensures Sort(leq, a) == Sort(leq, b)
  {
    SortSorted(leq, a);
    SortSorted(leq, b);
    SortedUnique(leq, Sort(leq, a), Sort(leq, b));
  }

  /** The order of Python strings. */
  predicate StringLeq(a: string, b: string) {
    a == [] || (b != [] && (a[0] < b[0] || (a[0] == b[0] && StringLeq(a[1..], b[1..]))))
  }

  lemma {:induction false} StringLeqTotal(a: string, b: string)
    ensures StringLeq(a, b) || StringLeq(b, a)
  {
    if a != [] && b != [] {
      StringLeqTotal(a[1..], b[1..]);
    }
  }

  lemma {:induction false} StringLeqTransitive(a: string, b: string, c: string)
    requires StringLeq(a, b) && StringLeq(b, c)
    ensures StringLeq(a, c)
  {
    if a != [] && a[0] == b[0] == c[0] {
      StringLeqTransitive(a[1..], b[1..], c[1..]);
    }
  }

  lemma {:induction false} StringLeqAntisymmetric(a: string, b: string)
    requires StringLeq(a, b) && StringLeq(b, a)
    ensures a == b
  {
    if a != [] && b != [] {
      StringLeqAntisymmetric(a[1..], b[1..]);
      assert a == [a[0]] + a[1..] && b == [b[0]] + b[1..];
    }
  }

  /** String comparison is a total order. */
  lemma {:induction false} StringOrder()
    ensures TotalPreorder(StringLeq) && Antisymmetric(StringLeq)
  {
    forall x, y ensures StringLeq(x, y) || StringLeq(y, x) { StringLeqTotal(x, y); }
    forall x, y, z | StringLeq(x, y) && StringLeq(y, z) ensures StringLeq(x, z) { StringLeqTransitive(x, y, z); }
    forall x, y | StringLeq(x, y) && StringLeq(y, x) ensures x == y { StringLeqAntisymmetric(x, y); }
  }

  /** The strings agree up to some position, where the first one ends or has the smaller character. */
  ghost predicate Alphabetical(a: string, b: string) {
    exists k :: 0 <= k <= |a| && k <= |b| && SplitAt(a, b, k)
  }

  predicate SplitAt(a: string, b: string, k: nat)
    requires k <= |a| && k <= |b|
  {
    a[..k] == b[..k] && (k == |a| || (k < |b| && a[k] < b[k]))
  }

  lemma {:induction false} StringLeqSplits(a: string, b: string) returns (k: nat)
    requires StringLeq(a, b)
    ensures k <= |a| && k <= |b| && SplitAt(a, b, k)
  {
    if a == [] || a[0] < b[0] {
      return 0;
    }
    var i := StringLeqSplits(a[1..], b[1..]);
    k := i + 1;
    assert a[..k] == [a[0]] + a[1..][..i] && b[..k] == [b[0]] + b[1..][..i];
  }

  lemma {:induction false} SplitsStringLeq(a: string, b: string, k: nat)
    requires k <= |a| && k <= |b| && SplitAt(a, b, k)
    ensures StringLeq(a, b)
  {
    if a != [] && k > 0 {
      assert a[0] == a[..k][0] && b[0] == b[..k][0];
      assert a[1..][..k - 1] == a[..k][1..] && b[1..][..k - 1] == b[..k][1..];
      SplitsStringLeq(a[1..], b[1..], k - 1);
    }
  }

  /** What the order is. */
  lemma {:induction false} StringLeqMeaning(a: string, b: string)
    ensures StringLeq(a, b) <==> Alphabetical(a, b)
  {
    if StringLeq(a, b) {
      var k := StringLeqSplits(a, b);
    }
    if Alphabetical(a, b) {
      var k :| 0 <= k <= |a| && k <= |b| && SplitAt(a, b, k);
      SplitsStringLeq(a, b, k);
    }
  }
}
