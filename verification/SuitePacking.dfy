/** What the split guarantees: no test is lost or repeated, the limits hold, and the number of
    suites is within a constant factor of any other packing. */
module SuitePacking {
  import opened Sorting
  import opened SuiteSplit

  function Flatten<T>(groups: seq<seq<T>>): seq<T> {
    if groups == [] then [] else Flatten(groups[..|groups| - 1]) + groups[|groups| - 1]
  }

  lemma {:induction false} FlattenSnoc<T>(groups: seq<seq<T>>, g: seq<T>)
    ensures Flatten(groups + [g]) == Flatten(groups) + g
  {
    assert (groups + [g])[..|groups|] == groups;
  }

  // ----- conservation

  lemma {:induction false} PlaceConserves(t: TestRuntime, lim: Limits, closed: seq<Group>, cur: Group)
    ensures match Place(t, lim, closed, cur)
            case Capped(c) => Flatten(c) == Flatten(closed) + cur
            case Placed(c, k) => Flatten(c) + k == Flatten(closed) + cur + [t]
  {
    FlattenSnoc(closed, cur);
  }

  /** The groups, one after the other and followed by what the cap left, are the tests in order. */
  lemma {:induction false} PackConserves(tests: Group, lim: Limits, closed: seq<Group>, cur: Group)
    ensures var p := Pack(tests, lim, closed, cur); Flatten(p.groups) + p.rest == Flatten(closed) + cur + tests
    decreases |tests|
  {
    if tests == [] {
      FlattenSnoc(closed, cur);
    } else {
      PlaceConserves(tests[0], lim, closed, cur);
      match Place(tests[0], lim, closed, cur)
      case Capped(_) =>
      case Placed(c, k) =>
        PackConserves(tests[1..], lim, c, k);
        assert tests == [tests[0]] + tests[1..];
        assert Flatten(closed) + cur + tests == Flatten(closed) + cur + [tests[0]] + tests[1..];
    }
  }

  lemma {:induction false} FlattenUpdateStep<T>(groups: seq<seq<T>>, g: seq<T>, i: nat, x: T)
    requires i < |groups|
    requires multiset(Flatten(groups[i := groups[i] + [x]])) == multiset(Flatten(groups)) + multiset{x}
    ensures multiset(Flatten(groups[i := groups[i] + [x]] + [g])) == multiset(Flatten(groups + [g])) + multiset{x}
  {
    FlattenSnoc(groups[i := groups[i] + [x]], g);
    FlattenSnoc(groups, g);
  }

  lemma {:induction false} FlattenUpdate<T>(groups: seq<seq<T>>, i: nat, x: T)
    requires i < |groups|
    ensures multiset(Flatten(groups[i := groups[i] + [x]])) == multiset(Flatten(groups)) + multiset{x}
    decreases |groups|
  {
    var n := |groups| - 1;
    var init, g := groups[..n], groups[n];
    assert groups == init + [g];
    if i == n {
      assert groups[i := g + [x]] == init + [g + [x]];
      FlattenSnoc(init, g + [x]);
      FlattenSnoc(init, g);
    } else {
      assert groups[i := groups[i] + [x]] == init[i := init[i] + [x]] + [g];
      FlattenUpdate(init, i, x);
      FlattenUpdateStep(init, g, i, x);
    }
  }

  /** What the groups hold after dealing the first `j` items. */
  ghost function Held(groups: seq<Group>, rest: Group, j: nat): multiset<TestRuntime>
    requires j <= |rest|
  {
    multiset(Flatten(Deal(groups, rest[..j])))
  }

  lemma {:induction false} HeldStep(groups: seq<Group>, rest: Group, j: nat)
    requires groups != [] && j < |rest|
    ensures Held(groups, rest, j + 1) == Held(groups, rest, j) + multiset{rest[j]}
  {
    DealStep(groups, rest, j);
    FlattenUpdate(Deal(groups, rest[..j]), j % |groups|, rest[j]);
  }

  lemma {:induction false} PrefixStep(rest: Group, j: nat)
    requires j < |rest|
    ensures multiset(rest[..j + 1]) == multiset(rest[..j]) + multiset{rest[j]}
  {
    assert rest[..j + 1] == rest[..j] + [rest[j]];
  }

  lemma {:induction false} HeldNothing(groups: seq<Group>, rest: Group)
    ensures Held(groups, rest, 0) == multiset(Flatten(groups)) + multiset(rest[..0])
  {
    DealNothing(groups);
    assert rest[..0] == [];
  }

  lemma {:induction false} AddAssociates<T>(a: multiset<T>, b: multiset<T>, c: multiset<T>)
    ensures (a + b) + c == a + (b + c)
  {
  }

  lemma {:induction false} DealConserves(groups: seq<Group>, rest: Group, j: nat)
    requires groups != [] && j <= |rest|
    ensures Held(groups, rest, j) == multiset(Flatten(groups)) + multiset(rest[..j])
  {
    if j == 0 {
      HeldNothing(groups, rest);
    } else {
      var i: nat, all, x := j - 1, multiset(Flatten(groups)), multiset{rest[j - 1]};
      DealConserves(groups, rest, i);
      HeldStep(groups, rest, i);
      PrefixStep(rest, i);
      AddAssociates(all, multiset(rest[..i]), x);
      assert Held(groups, rest, j) == Held(groups, rest, i) + x == (all + multiset(rest[..i])) + x;
      assert multiset(rest[..j]) == multiset(rest[..i]) + x;
    }
  }

  /** Every test ends up in exactly one suite, whether or not the cap was hit. */
  lemma {:induction false} DivideConserves(tests: Group, lim: Limits)
    ensures multiset(Flatten(Divide(tests, lim))) == multiset(tests)
  {
    var p := Pack(tests, lim, [], []);
    PackConserves(tests, lim, [], []);
    RestMeansCap(tests, lim, [], []);
    assert Flatten(p.groups) + p.rest == tests;
    if p.groups != [] {
      DealConserves(p.groups, p.rest, |p.rest|);
      assert p.rest[..|p.rest|] == p.rest;
    }
  }

  // ----- limits

  ghost predicate Fits(g: Group, lim: Limits) {
    |g| == 1 || (Total(g) <= lim.maxTime && (lim.maxTests == 0 || |g| <= lim.maxTests))
  }

  ghost predicate AllFit(groups: seq<Group>, lim: Limits) {
    forall i :: 0 <= i < |groups| ==> groups[i] != [] && Fits(groups[i], lim)
  }

  function Cap(lim: Limits): int {
    if lim.maxSuites < 1 then 1 else lim.maxSuites
  }

  lemma {:induction false} FitSnoc(groups: seq<Group>, g: Group, lim: Limits)
    requires AllFit(groups, lim) && g != [] && Fits(g, lim)
    ensures AllFit(groups + [g], lim)
  {
  }

  lemma {:induction false} GrownFits(t: TestRuntime, lim: Limits, cur: Group)
    requires cur == [] || !NewSuiteNeeded(Total(cur), |cur|, t.runtime, lim)
    ensures Fits(cur + [t], lim)
  {
    Snoc(cur, t);
  }

  lemma {:induction false} PlaceWithinLimits(t: TestRuntime, lim: Limits, closed: seq<Group>, cur: Group)
    requires AllFit(closed, lim) && (cur == [] || Fits(cur, lim))
    ensures match Place(t, lim, closed, cur)
            case Capped(c) => AllFit(c, lim)
            case Placed(c, k) => AllFit(c, lim) && k != [] && Fits(k, lim)
  {
    if NewSuiteNeeded(Total(cur), |cur|, t.runtime, lim) && cur != [] {
      FitSnoc(closed, cur, lim);
    } else {
      GrownFits(t, lim, cur);
    }
  }

  lemma {:induction false} PlaceCount(t: TestRuntime, lim: Limits, closed: seq<Group>, cur: Group)
    requires lim.maxSuites != 0 ==> |closed| < Cap(lim)
    ensures match Place(t, lim, closed, cur)
            case Capped(c) => lim.maxSuites != 0 && |c| == Cap(lim)
            case Placed(c, _) => lim.maxSuites != 0 ==> |c| < Cap(lim)
  {
  }

  /** No suite is empty, none breaks a limit unless it is a single test, and a cap is respected:
      with tests left over there are exactly as many suites as the cap allows. */
  lemma {:induction false} PackWithinLimits(tests: Group, lim: Limits, closed: seq<Group>, cur: Group)
    requires AllFit(closed, lim) && (cur == [] || Fits(cur, lim))
    requires lim.maxSuites != 0 ==> |closed| < Cap(lim)
    ensures var p := Pack(tests, lim, closed, cur);
            && AllFit(p.groups, lim)
            && (lim.maxSuites != 0 ==> |p.groups| <= Cap(lim))
            && (p.rest != [] ==> lim.maxSuites != 0 && |p.groups| == Cap(lim))
    decreases |tests|
  {
    if tests != [] {
      PlaceWithinLimits(tests[0], lim, closed, cur);
      PlaceCount(tests[0], lim, closed, cur);
      match Place(tests[0], lim, closed, cur)
      case Capped(_) =>
      case Placed(c, k) =>
        PackWithinLimits(tests[1..], lim, c, k);
    }
  }

  /** The same for the division itself: the cap always holds and no suite is empty; without
      left-over tests every suite is within the limits or a single test. */
  lemma {:induction false} DivideWithinLimits(tests: Group, lim: Limits)
    ensures var groups := Divide(tests, lim);
            && (lim.maxSuites != 0 ==> |groups| <= Cap(lim))
            && (forall i :: 0 <= i < |groups| ==> groups[i] != [])
            && (lim.maxSuites == 0 || |groups| < Cap(lim) ==> AllFit(groups, lim))
            && (tests != [] ==> groups != [])
  {
    var p := Pack(tests, lim, [], []);
    PackWithinLimits(tests, lim, [], []);
    PackConserves(tests, lim, [], []);
    if p.rest == [] {
      DealNothing(p.groups);
    }
  }

  // ----- next fit uses few suites

  /** Adding the next suite's first test would have gone over the time. */
  predicate TimeClosed(a: Group, b: Group, lim: Limits) {
    b != [] && Total(a) + b[0].runtime > lim.maxTime
  }

  ghost predicate Boundary(a: Group, b: Group, lim: Limits) {
    b != [] && NewSuiteNeeded(Total(a), |a|, b[0].runtime, lim)
  }

  /** Each suite was closed for a reason. */
  ghost predicate Justified(groups: seq<Group>, lim: Limits) {
    forall i, j :: 0 <= i && j == i + 1 && j < |groups| ==> Boundary(groups[i], groups[j], lim)
  }

  lemma {:induction false} JustifiedSnoc(groups: seq<Group>, g: Group, lim: Limits)
    requires Justified(groups, lim)
    requires groups != [] ==> Boundary(groups[|groups| - 1], g, lim)
    ensures Justified(groups + [g], lim)
  {
  }

  lemma {:induction false} PackJustified(tests: Group, lim: Limits, closed: seq<Group>, cur: Group)
    requires Justified(closed, lim)
    requires cur != [] ==> Justified(closed + [cur], lim)
    requires closed != [] ==> cur != []
    ensures Justified(Pack(tests, lim, closed, cur).groups, lim)
    decreases |tests|
  {
    if tests != [] {
      var t := tests[0];
      match Place(t, lim, closed, cur)
      case Capped(_) =>
      case Placed(c, k) =>
        if c == closed {
          if closed != [] {
            assert (closed + [cur])[|closed|] == cur;
            assert Boundary(closed[|closed| - 1], cur, lim) by {
              assert (closed + [cur])[|closed| - 1] == closed[|closed| - 1];
            }
          }
        }
        JustifiedSnoc(c, k, lim);
        PackJustified(tests[1..], lim, c, k);
    }
  }

  /** How many suites were closed because of time. */
  function TimeClosings(groups: seq<Group>, lim: Limits): nat {
    var n := |groups|;
    if n < 2 then 0
    else TimeClosings(groups[..n - 1], lim) + if TimeClosed(groups[n - 2], groups[n - 1], lim) then 1 else 0
  }

  ghost predicate Nonnegative(g: Group) {
    forall t :: t in g ==> t.runtime >= 0.0
  }

  lemma {:induction false} TotalAppend(a: Group, b: Group)
    ensures Total(a + b) == Total(a) + Total(b)
    decreases |b|
  {
    if b == [] {
      assert a + b == a;
    } else {
      var n := |b| - 1;
      TotalAppend(a, b[..n]);
      assert (a + b)[..|a| + n] == a + b[..n];
    }
  }

  lemma {:induction false} TotalAtLeastFirst(g: Group)
    requires Nonnegative(g)
    ensures Total(g) >= 0.0 && (g != [] ==> Total(g) >= g[0].runtime)
    decreases |g|
  {
    if g != [] {
      TotalAtLeastFirst(g[..|g| - 1]);
    }
  }

  /** `m * x`, one `x` at a time. */
  ghost function Times(m: nat, x: real): real {
    if m == 0 then 0.0 else Times(m - 1, x) + x
  }

  lemma {:induction false} OneMore(a: real, x: real)
    ensures (a + 1.0) * x == a * x + x
  {
  }

  lemma {:induction false} TimesIsProduct(m: nat, x: real)
    ensures Times(m, x) == m as real * x
  {
    if m > 0 {
      TimesIsProduct(m - 1, x);
      OneMore((m - 1) as real, x);
    }
  }

  lemma {:induction false} FlattenTotal(groups: seq<Group>)
    requires groups != []
    ensures var n := |groups| - 1;
            Total(Flatten(groups)) == Total(Flatten(groups[..n])) + Total(groups[n])
  {
    TotalAppend(Flatten(groups[..|groups| - 1]), groups[|groups| - 1]);
  }

  /** How many disjoint pairs of neighbours, taken from the end, were split for time. */
  function Pairs(groups: seq<Group>, lim: Limits): nat {
    var n := |groups|;
    if n < 2 then 0
    else if TimeClosed(groups[n - 2], groups[n - 1], lim) then 1 + Pairs(groups[..n - 2], lim)
    else Pairs(groups[..n - 1], lim)
  }

  lemma {:induction false} ClosingsPaired(groups: seq<Group>, lim: Limits)
    ensures TimeClosings(groups, lim) <= 2 * Pairs(groups, lim)
    decreases |groups|
  {
    var n := |groups|;
    if n >= 2 {
      if TimeClosed(groups[n - 2], groups[n - 1], lim) {
        ClosingsPaired(groups[..n - 2], lim);
        assert groups[..n - 1][..n - 2] == groups[..n - 2];
        assert n >= 3 ==> TimeClosings(groups[..n - 1], lim) <= TimeClosings(groups[..n - 2], lim) + 1;
      } else {
        ClosingsPaired(groups[..n - 1], lim);
      }
    }
  }

  /** So many times `x` fit into the bound, with room to spare unless it is no times. */
  ghost predicate Covered(m: nat, x: real, bound: real) {
    if m == 0 then 0.0 <= bound else Times(m, x) < bound
  }

  /** Each pair split for time is longer than allowed. */
  lemma {:induction false} PairsBound(groups: seq<Group>, lim: Limits)
    requires forall i :: 0 <= i < |groups| ==> Nonnegative(groups[i])
    ensures Covered(Pairs(groups, lim), lim.maxTime, Total(Flatten(groups)))
    decreases |groups|
  {
    var n := |groups|;
    if n > 0 {
      FlattenTotal(groups);
      TotalAtLeastFirst(groups[n - 1]);
      if n >= 2 && TimeClosed(groups[n - 2], groups[n - 1], lim) {
        FlattenTotal(groups[..n - 1]);
        assert groups[..n - 1][..n - 2] == groups[..n - 2];
        PairsBound(groups[..n - 2], lim);
      } else {
        PairsBound(groups[..n - 1], lim);
      }
    }
  }

  lemma {:induction false} FlattenElements<T>(groups: seq<seq<T>>)
    ensures forall i, x :: 0 <= i < |groups| && x in groups[i] ==> x in Flatten(groups)
  {
    if groups != [] {
      FlattenElements(groups[..|groups| - 1]);
    }
  }

  lemma {:induction false} PackNonnegative(tests: Group, lim: Limits)
    requires Nonnegative(tests)
    ensures var p := Pack(tests, lim, [], []);
            && (forall i :: 0 <= i < |p.groups| ==> Nonnegative(p.groups[i]))
            && Total(Flatten(p.groups)) <= Total(tests)
  {
    var p := Pack(tests, lim, [], []);
    PackConserves(tests, lim, [], []);
    assert Flatten(p.groups) + p.rest == tests;
    TotalAppend(Flatten(p.groups), p.rest);
    FlattenElements(p.groups);
    assert Nonnegative(p.rest);
    TotalAtLeastFirst(p.rest);
  }

  /** How many suites next fit closes because of time. */
  function ClosedForTime(tests: Group, lim: Limits): nat {
    TimeClosings(Pack(tests, lim, [], []).groups, lim)
  }

  /** The pairs that make up at least half of the closings fit into the total runtime. */
  lemma {:induction false} NextFitPairs(tests: Group, lim: Limits) returns (pairs: nat)
    requires Nonnegative(tests)
    ensures ClosedForTime(tests, lim) <= 2 * pairs && Covered(pairs, lim.maxTime, Total(tests))
  {
    var groups := Pack(tests, lim, [], []).groups;
    PackNonnegative(tests, lim);
    TotalAtLeastFirst(tests);
    ClosingsPaired(groups, lim);
    PairsBound(groups, lim);
    pairs := Pairs(groups, lim);
  }

  /** How many suites were closed only for being full. */
  function FullClosings(groups: seq<Group>, lim: Limits): nat {
    var n := |groups|;
    if n < 2 then 0
    else
      FullClosings(groups[..n - 1], lim) +
      if !TimeClosed(groups[n - 2], groups[n - 1], lim) && lim.maxTests != 0 && |groups[n - 2]| >= lim.maxTests then 1 else 0
  }

  lemma {:induction false} ClosingsSplit(groups: seq<Group>, lim: Limits)
    requires groups != [] && Justified(groups, lim)
    ensures TimeClosings(groups, lim) + FullClosings(groups, lim) == |groups| - 1
    decreases |groups|
  {
    var n := |groups|;
    if n >= 2 {
      var init := groups[..n - 1];
      forall i, j | 0 <= i && j == i + 1 && j < |init| ensures Boundary(init[i], init[j], lim) {
        assert Boundary(groups[i], groups[j], lim);
      }
      ClosingsSplit(init, lim);
      assert Boundary(groups[n - 2], groups[n - 1], lim);
    }
  }

  lemma {:induction false} PackNonempty(tests: Group, lim: Limits)
    requires tests != []
    ensures Pack(tests, lim, [], []).groups != []
  {
    PackConserves(tests, lim, [], []);
    RestMeansCap(tests, lim, [], []);
  }

  lemma {:induction false} ClosedForTimeCount(tests: Group, lim: Limits)
    requires tests != []
    ensures var groups := Pack(tests, lim, [], []).groups;
            ClosedForTime(tests, lim) == |groups| - 1 - FullClosings(groups, lim)
  {
    PackNonempty(tests, lim);
    PackJustified(tests, lim, [], []);
    ClosingsSplit(Pack(tests, lim, [], []).groups, lim);
  }

  lemma {:induction false} TimesMonotone(m: nat, n: nat, x: real)
    requires m <= n && x >= 0.0
    ensures Times(m, x) <= Times(n, x)
    decreases n
  {
    if m < n {
      TimesMonotone(m, n - 1, x);
    }
  }

  lemma {:induction false} TimesNegative(m: nat, x: real)
    requires x < 0.0
    ensures Times(m, x) <= 0.0
  {
    if m > 0 {
      TimesNegative(m - 1, x);
    }
  }

  lemma {:induction false} NextFitTimes(tests: Group, lim: Limits)
    requires Nonnegative(tests)
    ensures Times(ClosedForTime(tests, lim), lim.maxTime) <= 2.0 * Total(tests)
  {
    var m := ClosedForTime(tests, lim);
    var pairs := NextFitPairs(tests, lim);
    if lim.maxTime < 0.0 {
      TotalAtLeastFirst(tests);
      TimesNegative(m, lim.maxTime);
    } else {
      TimesMonotone(m, 2 * pairs, lim.maxTime);
      TimesTwice(pairs, lim.maxTime);
    }
  }

  /** The suites that were not closed only for being full, without the last one, times the limit. */
  ghost function TimeTaken(groups: seq<Group>, lim: Limits): real {
    (|groups| - 1 - FullClosings(groups, lim)) as real * lim.maxTime
  }

  lemma {:induction false} TimeTakenIs(groups: seq<Group>, lim: Limits, m: nat)
    requires m == |groups| - 1 - FullClosings(groups, lim)
    ensures TimeTaken(groups, lim) == Times(m, lim.maxTime)
  {
    TimesIsProduct(m, lim.maxTime);
  }

  /** Next fit: of `k` suites, `f` of them closed only for being full, `(k - 1 - f) * maxTime` is at
      most twice the total runtime. */
  lemma {:induction false} NextFitBound(tests: Group, lim: Limits)
    requires Nonnegative(tests) && tests != []
    ensures TimeTaken(Pack(tests, lim, [], []).groups, lim) <= 2.0 * Total(tests)
  {
    ClosedForTimeCount(tests, lim);
    NextFitTimes(tests, lim);
    TimeTakenIs(Pack(tests, lim, [], []).groups, lim, ClosedForTime(tests, lim));
  }

  lemma {:induction false} TotalOfBins(bins: seq<Group>, lim: Limits)
    requires forall i :: 0 <= i < |bins| ==> Total(bins[i]) <= lim.maxTime
    ensures Total(Flatten(bins)) <= Times(|bins|, lim.maxTime)
  {
    if bins != [] {
      TotalOfBins(bins[..|bins| - 1], lim);
      FlattenTotal(bins);
    }
  }

  lemma {:induction false} TotalOfPermutation(a: Group, b: Group)
    requires multiset(a) == multiset(b)
    ensures Total(a) == Total(b)
  {
    var total := (g: Group) => Total(g);
    forall x, y ensures AddsUp(total, x, y) { TotalAppend(x, y); }
    AdditivePermutation(total, a, b);
  }

  lemma {:induction false} TimesTwice(m: nat, x: real)
    ensures Times(2 * m, x) == 2.0 * Times(m, x)
  {
    if m > 0 {
      TimesTwice(m - 1, x);
      assert Times(2 * m, x) == Times(2 * m - 1, x) + x == Times(2 * (m - 1), x) + x + x;
    }
  }

  /** However the same tests are put into bins of the allowed time, there are fewer pairs split for
      time than bins. */
  lemma {:induction false} FewClosedForTime(tests: Group, lim: Limits, bins: seq<Group>)
    requires Nonnegative(tests) && lim.maxTime > 0.0 && tests != []
    requires multiset(Flatten(bins)) == multiset(tests)
    requires forall i :: 0 <= i < |bins| ==> Total(bins[i]) <= lim.maxTime
    ensures ClosedForTime(tests, lim) <= 2 * (|bins| - 1)
  {
    SameElements(Flatten(bins), tests);
    var pairs := NextFitPairs(tests, lim);
    TotalOfBins(bins, lim);
    TotalOfPermutation(Flatten(bins), tests);
    if pairs >= |bins| {
      TimesMonotone(|bins|, pairs, lim.maxTime);
    }
  }

  /** Not counting the suites closed only for being full, next fit uses fewer than twice as many
      suites as any packing within the time. */
  lemma {:induction false} NextFitWithinTwice(tests: Group, lim: Limits, bins: seq<Group>)
    requires Nonnegative(tests) && lim.maxTime > 0.0 && tests != []
    requires multiset(Flatten(bins)) == multiset(tests)
    requires forall i :: 0 <= i < |bins| ==> Total(bins[i]) <= lim.maxTime
    ensures var groups := Pack(tests, lim, [], []).groups;
            |groups| - FullClosings(groups, lim) <= 2 * |bins| - 1
  {
    ClosedForTimeCount(tests, lim);
    FewClosedForTime(tests, lim, bins);
  }

  lemma {:induction false} FullClosingsStep(groups: seq<Group>, lim: Limits)
    requires |groups| >= 2
    ensures var n := |groups|;
            var closed := FullClosings(groups, lim) - FullClosings(groups[..n - 1], lim);
            closed == 0 || (closed == 1 && |groups[n - 2]| >= lim.maxTests)
  {
  }

  lemma {:induction false} ProductStep(f: nat, k: nat)
    ensures (f + 1) * k == f * k + k
  {
  }

  /** Suites closed for being full hold that many tests. */
  lemma {:induction false} FullBound(groups: seq<Group>, lim: Limits)
    requires groups != [] && lim.maxTests > 0
    ensures FullClosings(groups, lim) * lim.maxTests + |groups[|groups| - 1]| <= |Flatten(groups)|
    decreases |groups|
  {
    var n := |groups|;
    if n >= 2 {
      FullBound(groups[..n - 1], lim);
      FullClosingsStep(groups, lim);
      ProductStep(FullClosings(groups[..n - 1], lim), lim.maxTests);
    }
  }

  lemma {:induction false} CountOfBins(bins: seq<Group>, most: nat)
    requires forall i :: 0 <= i < |bins| ==> |bins[i]| <= most
    ensures |Flatten(bins)| <= |bins| * most
  {
    if bins != [] {
      CountOfBins(bins[..|bins| - 1], most);
      ProductStep(|bins| - 1, most);
    }
  }

  lemma {:induction false} NeverFull(groups: seq<Group>, lim: Limits)
    requires lim.maxTests == 0
    ensures FullClosings(groups, lim) == 0
    decreases |groups|
  {
    if |groups| >= 2 {
      NeverFull(groups[..|groups| - 1], lim);
    }
  }

  lemma {:induction false} CancelFactor(f: nat, b: nat, k: nat)
    requires f * k < b * k
    ensures f < b
  {
    assert f >= b ==> (f - b) * k >= 0;
  }

  lemma {:induction false} FewFull(tests: Group, lim: Limits, bins: seq<Group>)
    requires tests != [] && multiset(Flatten(bins)) == multiset(tests)
    requires forall i :: 0 <= i < |bins| ==> lim.maxTests == 0 || |bins[i]| <= lim.maxTests
    ensures FullClosings(Pack(tests, lim, [], []).groups, lim) < |bins|
  {
    var p := Pack(tests, lim, [], []);
    SameElements(Flatten(bins), tests);
    assert |bins| > 0;
    if lim.maxTests == 0 {
      NeverFull(p.groups, lim);
    } else {
      PackNonempty(tests, lim);
      PackConserves(tests, lim, [], []);
      PackWithinLimits(tests, lim, [], []);
      FullBound(p.groups, lim);
      CountOfBins(bins, lim.maxTests);
      CancelFactor(FullClosings(p.groups, lim), |bins|, lim.maxTests);
    }
  }

  /** Next fit uses less than three times as many suites as any packing within time and count. */
  lemma {:induction false} NextFitWithinThrice(tests: Group, lim: Limits, bins: seq<Group>)
    requires Nonnegative(tests) && lim.maxTime > 0.0 && tests != []
    requires multiset(Flatten(bins)) == multiset(tests)
    requires forall i :: 0 <= i < |bins| ==>
               Total(bins[i]) <= lim.maxTime && (lim.maxTests == 0 || |bins[i]| <= lim.maxTests)
    ensures |Pack(tests, lim, [], []).groups| <= 3 * |bins| - 2
  {
    NextFitWithinTwice(tests, lim, bins);
    FewFull(tests, lim, bins);
  }

  // ----- round robin

  lemma {:induction false} DivStep(n: nat, k: nat)
    requires k > 0
    ensures (n + 1) / k == if n % k + 1 >= k then n / k + 1 else n / k
  {
    ModStep(n, k);
    var q := (n + 1) / k;
    assert q * k + (n + 1) % k == n + 1 && (n / k) * k + n % k == n;
    assert n % k + 1 >= k ==> (q - n / k) * k == k;
    assert n % k + 1 < k ==> (q - n / k) * k == 0;
  }

  lemma {:induction false} DealtSnoc(rest: Group, k: nat, i: nat, n: nat)
    requires k > 0 && |rest| == n + 1
    ensures |Dealt(rest, k, i)| == |Dealt(rest[..n], k, i)| + if n % k == i then 1 else 0
  {
  }

  /** Item `j` goes to suite `j` modulo `k`, so the counts of any two suites differ by at most one. */
  lemma {:induction false} DealtEvenly(rest: Group, k: nat, i: nat, n: nat)
    requires i < k && n == |rest|
    ensures |Dealt(rest, k, i)| == n / k + if i < n % k then 1 else 0
    decreases n
  {
    if n > 0 {
      DealtEvenly(rest[..n - 1], k, i, n - 1);
      DealtSnoc(rest, k, i, n - 1);
      ModStep(n - 1, k);
      DivStep(n - 1, k);
    }
  }

  /** Item `j` is at place `j / k` of share `j % k`. */
  lemma {:induction false} DealtAt(rest: Group, k: nat, j: nat)
    requires k > 0 && j < |rest|
    ensures j / k < |Dealt(rest, k, j % k)| && Dealt(rest, k, j % k)[j / k] == rest[j]
    decreases |rest|
  {
    var n := |rest| - 1;
    if j == n {
      DealtEvenly(rest[..n], k, n % k, n);
    } else {
      DealtAt(rest[..n], k, j);
    }
  }

  lemma {:induction false} DealtFrom(rest: Group, k: nat, i: nat)
    requires k > 0
    ensures forall t :: t in Dealt(rest, k, i) ==> t in rest
  {
    if rest != [] {
      var n := |rest| - 1;
      DealtFrom(rest[..n], k, i);
      assert rest == rest[..n] + [rest[n]];
    }
  }

  lemma {:induction false} SmallDivision(x: nat, n: nat)
    requires n > 0
    ensures x < n ==> x / n == 0 && x % n == x
    ensures x >= n ==> x / n >= 1
  {
  }

  lemma {:induction false} ShareOf(groups: seq<Group>, rest: Group, i: nat)
    requires i < |groups|
    ensures |Deal(groups, rest)| == |groups| && Deal(groups, rest)[i] == groups[i] + Dealt(rest, |groups|, i)
  {
  }

  lemma {:induction false} DealtPlace(rest: Group, k: nat, q: nat, i: nat)
    requires i < k && q * k + i < |rest|
    ensures q < |Dealt(rest, k, i)| && Dealt(rest, k, i)[q] == rest[q * k + i]
  {
    var j := q * k + i;
    ModUnique(j, q, i, k);
    assert j / k == q by {
      assert (j / k) * k == q * k;
    }
    DealtAt(rest, k, j);
  }

  /** What dealing leaves in each group: what was there, and behind it, in turn, the items of its share. */
  lemma {:induction false} DealAt(groups: seq<Group>, rest: Group, q: nat, i: nat)
    requires i < |groups| && q * |groups| + i < |rest|
    ensures |Deal(groups, rest)| == |groups| && groups[i] <= Deal(groups, rest)[i]
    ensures |groups[i]| + q < |Deal(groups, rest)[i]| && Deal(groups, rest)[i][|groups[i]| + q] == rest[q * |groups| + i]
  {
    ShareOf(groups, rest, i);
    DealtPlace(rest, |groups|, q, i);
    AppendAt(groups[i], Dealt(rest, |groups|, i), q);
  }

  lemma {:induction false} AppendAt(a: Group, b: Group, q: nat)
    requires q < |b|
    ensures a <= a + b && (a + b)[|a| + q] == b[q]
  {
  }

  lemma {:induction false} FallbackGroup(tests: seq<string>, n: nat, i: nat)
    requires i < n
    ensures |Fallback(tests, n)| == n && Fallback(tests, n)[i] == Dealt(Untimed(tests), n, i)
  {
    var empty: seq<Group> := seq(n, _ => []);
    ShareOf(empty, Untimed(tests), i);
    assert [] + Dealt(Untimed(tests), n, i) == Dealt(Untimed(tests), n, i);
  }

  /** The fallback split: `n` groups, test `j` at place `j / n` of group `j % n`. */
  lemma {:induction false} FallbackAt(tests: seq<string>, n: nat, i: nat, j: nat)
    requires n > 0 && j < |tests| && i == j % n
    ensures |Fallback(tests, n)| == n && j / n < |Fallback(tests, n)[i]|
    ensures Fallback(tests, n)[i][j / n] == TestRuntime(tests[j], 0.0)
  {
    FallbackGroup(tests, n, i);
    DealtAt(Untimed(tests), n, j);
  }

  /** Nothing else is in the groups, and no runtime is known. */
  lemma {:induction false} FallbackHolds(tests: seq<string>, n: nat, i: nat)
    requires i < n
    ensures |Fallback(tests, n)| == n
    ensures |Fallback(tests, n)[i]| == |tests| / n + if i < |tests| % n then 1 else 0
    ensures forall t :: t in Fallback(tests, n)[i] ==> t.runtime == 0.0
  {
    FallbackGroup(tests, n, i);
    DealtEvenly(Untimed(tests), n, i, |tests|);
    DealtFrom(Untimed(tests), n, i);
  }
}
