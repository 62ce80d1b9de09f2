/** Splitting a test suite by historic runtime: a next-fit packer with a cap on the number of
    suites, and the round robin that deals out whatever the cap left over. */
module SuiteSplit {
  datatype TestRuntime = TestRuntime(name: string, runtime: real)
  type Group = seq<TestRuntime>

  /** The packer's limits; zero for a count stands for a limit that was not given. */
  datatype Limits = Limits(maxTime: real, maxSuites: int, maxTests: int)

  // ----- what a suite's accumulators stand for

  function Names(g: Group): (r: seq<string>)
    ensures |r| == |g| && forall i :: 0 <= i < |g| ==> r[i] == g[i].name
  {
    if g == [] then [] else Names(g[..|g| - 1]) + [g[|g| - 1].name]
  }

  function Total(g: Group): real {
    if g == [] then 0.0 else Total(g[..|g| - 1]) + g[|g| - 1].runtime
  }

  /** The largest runtime, or zero when none is positive. */
  function Longest(g: Group): (m: real)
    ensures m >= 0.0 && (m == 0.0 || exists t :: t in g && t.runtime == m)
    ensures forall t :: t in g ==> t.runtime <= m
  {
    if g == [] then 0.0
    else
      var m, last := Longest(g[..|g| - 1]), g[|g| - 1];
      assert g == g[..|g| - 1] + [last];
      if last.runtime > m then last.runtime else m
  }

  function InfoCount(g: Group): nat {
    if g == [] then 0 else InfoCount(g[..|g| - 1]) + if g[|g| - 1].runtime != 0.0 then 1 else 0
  }

  lemma {:induction false} Snoc(g: Group, t: TestRuntime)
    ensures Names(g + [t]) == Names(g) + [t.name]
    ensures Total(g + [t]) == Total(g) + t.runtime
    ensures Longest(g + [t]) == if t.runtime > Longest(g) then t.runtime else Longest(g)
    ensures InfoCount(g + [t]) == InfoCount(g) + if t.runtime != 0.0 then 1 else 0
  {
    assert (g + [t])[..|g|] == g;
  }

  /** The names and running figures of the tests in a group. */
  ghost predicate Figures(g: Group, names: seq<string>, total: real, longest: real, infoCount: nat) {
    names == Names(g) && total == Total(g) && longest == Longest(g) && infoCount == InfoCount(g)
  }

  lemma {:induction false} FiguresSnoc(g: Group, t: TestRuntime, names: seq<string>, total: real, longest: real,
                                       infoCount: nat)
    requires Figures(g, names, total, longest, infoCount)
    ensures Figures(g + [t], names + [t.name], total + t.runtime, if t.runtime > longest then t.runtime else longest,
                    if t.runtime != 0.0 then infoCount + 1 else infoCount)
  {
    Snoc(g, t);
  }

  class Suite {
    var tests: seq<string>
    var totalRuntime: real
    var maxRuntime: real
    var testsWithRuntimeInfo: nat
    var taskOverhead: real

    constructor ()
      ensures Holds([]) && taskOverhead == 0.0
    {
      tests, totalRuntime, maxRuntime, testsWithRuntimeInfo, taskOverhead := [], 0.0, 0.0, 0, 0.0;
    }

    /** The tests are these, in order, and the running figures are theirs. */
    ghost predicate Holds(g: Group)
      reads this
    {
      Figures(g, tests, totalRuntime, maxRuntime, testsWithRuntimeInfo)
    }

    method AddTest(name: string, runtime: real, ghost g: Group)
      requires Holds(g)
      modifies this
      ensures Holds(g + [TestRuntime(name, runtime)]) && taskOverhead == old(taskOverhead)
    {
      FiguresSnoc(g, TestRuntime(name, runtime), tests, totalRuntime, maxRuntime, testsWithRuntimeInfo);
      tests := tests + [name];
      totalRuntime := totalRuntime + runtime;
      if runtime != 0.0 {
        testsWithRuntimeInfo := testsWithRuntimeInfo + 1;
      }
      if runtime > maxRuntime {
        maxRuntime := runtime;
      }
    }
  }

  // ----- next fit

  predicate NewSuiteNeeded(total: real, count: nat, runtime: real, lim: Limits) {
    total + runtime > lim.maxTime || (lim.maxTests != 0 && count + 1 > lim.maxTests)
  }

  /** The suites closed and the tests not yet in one when the cap was hit. */
  datatype Packing = Packing(groups: seq<Group>, rest: Group)

  /** Where the next test goes: into suites closed so far and a current one, unless the cap is hit. */
  datatype Placing = Capped(closed: seq<Group>) | Placed(closed: seq<Group>, cur: Group)

  function Place(t: TestRuntime, lim: Limits, closed: seq<Group>, cur: Group): Placing {
    if NewSuiteNeeded(Total(cur), |cur|, t.runtime, lim) && cur != [] then
      if lim.maxSuites != 0 && |closed| + 1 >= lim.maxSuites then Capped(closed + [cur])
      else Placed(closed + [cur], [t])
    else Placed(closed, cur + [t])
  }

  function Pack(tests: Group, lim: Limits, closed: seq<Group>, cur: Group): Packing {
    if tests == [] then Packing(if cur != [] then closed + [cur] else closed, [])
    else
      match Place(tests[0], lim, closed, cur)
      case Capped(c) => Packing(c, tests)
      case Placed(c, k) => Pack(tests[1..], lim, c, k)
  }

  /** The items whose position is `i` modulo `k`, in order. */
  function Dealt(rest: Group, k: nat, i: nat): Group
    requires k > 0
  {
    if rest == [] then []
    else
      var n := |rest| - 1;
      Dealt(rest[..n], k, i) + if n % k == i then [rest[n]] else []
  }

  /** Deals the items out over the groups, one at a time and starting again after the last. */
  function Deal(groups: seq<Group>, rest: Group): seq<Group> {
    if groups == [] then [] else seq(|groups|, i requires 0 <= i < |groups| => groups[i] + Dealt(rest, |groups|, i))
  }

  function Divide(tests: Group, lim: Limits): seq<Group> {
    var p := Pack(tests, lim, [], []);
    Deal(p.groups, p.rest)
  }

  // ----- the loops of the source

  ghost predicate Hold(suites: seq<Suite>, groups: seq<Group>)
    reads suites
  {
    && |suites| == |groups|
    && (forall i, j :: 0 <= i < j < |suites| ==> suites[i] != suites[j])
    && forall i :: 0 <= i < |suites| ==> suites[i].Holds(groups[i]) && suites[i].taskOverhead == 0.0
  }

  lemma {:induction false} ModUnique(x: int, q: int, r: int, k: int)
    requires k > 0 && x == q * k + r && 0 <= r < k
    ensures x % k == r
  {
    var d := q - x / k;
    assert k * d == x % k - r;
    assert d >= 1 ==> k * d >= k;
    assert d <= -1 ==> k * d <= -k;
  }

  lemma {:induction false} ModStep(j: nat, k: nat)
    requires k > 0
    ensures (j + 1) % k == if j % k + 1 >= k then 0 else j % k + 1
  {
    var q, r := j / k, j % k;
    if r + 1 >= k {
      ModUnique(j + 1, q + 1, 0, k);
    } else {
      ModUnique(j + 1, q, r + 1, k);
    }
  }

  lemma {:induction false} DealNothing(groups: seq<Group>)
    ensures Deal(groups, []) == groups
  {
    forall i | 0 <= i < |groups| ensures Deal(groups, [])[i] == groups[i] {
      assert groups[i] + [] == groups[i];
    }
  }

  method AddTo(suites: seq<Suite>, i: nat, t: TestRuntime, ghost groups: seq<Group>)
    requires Hold(suites, groups) && i < |suites|
    modifies suites[i]
    ensures Hold(suites, groups[i := groups[i] + [t]])
  {
    suites[i].AddTest(t.name, t.runtime, groups[i]);
    assert t == TestRuntime(t.name, t.runtime);
  }

  method DivideRemaining(rest: Group, suites: seq<Suite>, ghost groups: seq<Group>)
    requires Hold(suites, groups) && |suites| > 0
    modifies suites
    ensures Hold(suites, Deal(groups, rest))
  {
    var suiteIdx, k := 0, |suites|;
    assert rest[..0] == [];
    DealNothing(groups);
    ghost var dealt := groups;
    for j := 0 to |rest|
      invariant suiteIdx == j % k
      invariant Hold(suites, dealt) && dealt == Deal(groups, rest[..j])
    {
      DealStep(groups, rest, j);
      AddTo(suites, suiteIdx, rest[j], dealt);
      dealt := dealt[suiteIdx := dealt[suiteIdx] + [rest[j]]];
      ModStep(j, k);
      suiteIdx := suiteIdx + 1;
      if suiteIdx >= k {
        suiteIdx := 0;
      }
    }
    assert rest[..|rest|] == rest;
  }

  lemma {:induction false} DealStep(groups: seq<Group>, rest: Group, j: nat)
    requires groups != [] && j < |rest|
    ensures var i, before := j % |groups|, Deal(groups, rest[..j]);
            i < |before| && Deal(groups, rest[..j + 1]) == before[i := before[i] + [rest[j]]]
  {
    assert rest[..j + 1][..j] == rest[..j];
    var k, a, b := |groups|, Deal(groups, rest[..j]), Deal(groups, rest[..j + 1]);
    forall i | 0 <= i < k ensures b[i] == if i == j % k then a[i] + [rest[j]] else a[i] {
      assert Dealt(rest[..j + 1], k, i) == Dealt(rest[..j], k, i) + if j % k == i then [rest[j]] else [];
    }
  }

  lemma {:induction false} SnocUpdate(closed: seq<Group>, cur: Group, t: TestRuntime)
    ensures var all := closed + [cur]; all[|closed| := all[|closed|] + [t]] == closed + [cur + [t]]
  {
  }

  lemma {:induction false} HoldSnoc(suites: seq<Suite>, groups: seq<Group>, s: Suite)
    requires Hold(suites, groups) && s !in suites && s.Holds([]) && s.taskOverhead == 0.0
    ensures Hold(suites + [s], groups + [[]])
  {
  }

  lemma {:induction false} HoldInit(suites: seq<Suite>, groups: seq<Group>, s: Suite, g: Group)
    requires Hold(suites + [s], groups + [g]) && |suites| == |groups|
    ensures Hold(suites, groups)
  {
    var all, gs := suites + [s], groups + [g];
    forall i | 0 <= i < |suites| ensures suites[i] == all[i] && groups[i] == gs[i] {}
  }

  /** One turn of the packing loop. */
  method PlaceTest(t: TestRuntime, lim: Limits, suites: seq<Suite>, current: Suite,
                   ghost closed: seq<Group>, ghost cur: Group)
    returns (capped: bool, suites': seq<Suite>, current': Suite)
    requires |closed| == |suites| && Hold(suites + [current], closed + [cur])
    modifies current
    ensures match Place(t, lim, closed, cur)
            case Capped(c) => capped && Hold(suites' + [current'], c + [[]]) && |suites'| == |c|
            case Placed(c, k) => !capped && Hold(suites' + [current'], c + [k]) && |suites'| == |c|
    ensures suites' == suites || suites' == suites + [current]
    ensures current' == current || fresh(current')
  {
    capped, suites', current' := false, suites, current;
    ghost var c, k := closed, cur;
    assert (suites + [current])[|suites|] == current && (closed + [cur])[|suites|] == cur;
    if NewSuiteNeeded(current.totalRuntime, |current.tests|, t.runtime, lim) {
      if |current.tests| > 0 {
        suites', c, k := suites + [current], closed + [cur], [];
        current' := new Suite();
        HoldSnoc(suites', c, current');
        if lim.maxSuites != 0 && |suites'| >= lim.maxSuites {
          return true, suites', current';
        }
      }
    }
    AddTo(suites' + [current'], |suites'|, t, c + [k]);
    SnocUpdate(c, k, t);
    assert [] + [t] == [t];
  }

  /** What is left of the packing from the `i`-th test on. */
  ghost function PackFrom(tests: Group, lim: Limits, i: nat, closed: seq<Group>, cur: Group): Packing
    requires i <= |tests|
  {
    Pack(tests[i..], lim, closed, cur)
  }

  lemma {:induction false} PackStep(tests: Group, lim: Limits, i: nat, closed: seq<Group>, cur: Group)
    requires i < |tests|
    ensures PackFrom(tests, lim, i, closed, cur)
         == match Place(tests[i], lim, closed, cur)
            case Capped(c) => Packing(c, tests[i..])
            case Placed(c, k) => PackFrom(tests, lim, i + 1, c, k)
  {
    assert tests[i..][1..] == tests[i + 1..];
  }

  lemma {:induction false} PackEnd(tests: Group, lim: Limits, closed: seq<Group>, cur: Group)
    ensures PackFrom(tests, lim, |tests|, closed, cur) == Packing(if cur != [] then closed + [cur] else closed, [])
  {
  }

  /** The packing loop: the suites it closes, and the one being filled, unless the cap was hit. */
  method PackAll(tests: Group, lim: Limits)
    returns (suites: seq<Suite>, current: Suite, last: nat, ghost closed: seq<Group>, ghost cur: Group)
    ensures |closed| == |suites| && Hold(suites + [current], closed + [cur])
    ensures fresh(suites) && fresh(current)
    ensures last <= |tests|
    ensures Pack(tests, lim, [], []) ==
              if last == |tests| then PackFrom(tests, lim, |tests|, closed, cur) else Packing(closed, tests[last..])
    ensures last < |tests| ==> cur == []
  {
    suites := [];
    current := new Suite();
    closed, cur := [], [];
    ghost var whole := Pack(tests, lim, [], []);
    assert tests[0..] == tests;
    for idx := 0 to |tests|
      invariant |closed| == |suites|
      invariant Hold(suites + [current], closed + [cur])
      invariant fresh(suites) && fresh(current)
      invariant whole == PackFrom(tests, lim, idx, closed, cur)
    {
      PackStep(tests, lim, idx, closed, cur);
      ghost var p := Place(tests[idx], lim, closed, cur);
      var capped;
      capped, suites, current := PlaceTest(tests[idx], lim, suites, current, closed, cur);
      closed, cur := p.closed, if p.Placed? then p.cur else [];
      if capped {
        return suites, current, idx, closed, cur;
      }
    }
    last := |tests|;
  }

  /** The suites of the packing, and how many tests are in them. */
  method PackSuites(tests: Group, lim: Limits) returns (suites: seq<Suite>, last: nat)
    ensures last <= |tests| && Hold(suites, Pack(tests, lim, [], []).groups)
    ensures Pack(tests, lim, [], []).rest == tests[last..]
    ensures fresh(suites)
  {
    var current;
    ghost var closed, cur;
    suites, current, last, closed, cur := PackAll(tests, lim);
    PackEnd(tests, lim, closed, cur);
    assert (suites + [current])[|suites|] == current && (closed + [cur])[|suites|] == cur;
    if |current.tests| > 0 {
      suites := suites + [current];
    } else {
      HoldInit(suites, closed, current, cur);
    }
  }

  method DivideTests(tests: Group, lim: Limits) returns (suites: seq<Suite>)
    ensures Hold(suites, Divide(tests, lim))
  {
    var last;
    suites, last := PackSuites(tests, lim);
    ghost var p := Pack(tests, lim, [], []);
    RestMeansCap(tests, lim, [], []);
    if lim.maxSuites != 0 && last < |tests| {
      DivideRemaining(tests[last..], suites, p.groups);
    } else {
      assert tests[last..] == [];
      DealNothing(p.groups);
    }
  }

  lemma {:induction false} RestMeansCap(tests: Group, lim: Limits, closed: seq<Group>, cur: Group)
    ensures var p := Pack(tests, lim, closed, cur);
            p.rest != [] ==> lim.maxSuites != 0 && |p.groups| > 0 && |p.groups| >= lim.maxSuites
    decreases |tests|
  {
    if tests != [] {
      RestMeansCap(tests[1..], lim, closed + [cur], [tests[0]]);
      RestMeansCap(tests[1..], lim, closed, cur + [tests[0]]);
    }
  }

  /** The split used without history: test `idx` goes to suite `idx` modulo the number of suites. */
  method FallbackSuites(tests: seq<string>, numSuites: nat) returns (suites: seq<Suite>)
    requires numSuites > 0 || tests == []
    ensures Hold(suites, Fallback(tests, numSuites))
  {
    suites := [];
    for i := 0 to numSuites
      invariant |suites| == i && Hold(suites, seq(i, _ => []))
      invariant fresh(suites)
    {
      var s := new Suite();
      suites := suites + [s];
    }
    ghost var empty: seq<Group> := seq(numSuites, _ => []);
    ghost var timed := Untimed(tests);
    assert timed[..0] == [];
    DealNothing(empty);
    for idx := 0 to |tests|
      invariant fresh(suites)
      invariant Hold(suites, Deal(empty, timed[..idx]))
    {
      DealStep(empty, timed, idx);
      AddTo(suites, idx % numSuites, TestRuntime(tests[idx], 0.0), Deal(empty, timed[..idx]));
    }
    assert timed[..|tests|] == timed;
  }

  function Untimed(tests: seq<string>): Group {
    seq(|tests|, i requires 0 <= i < |tests| => TestRuntime(tests[i], 0.0))
  }

  function Fallback(tests: seq<string>, numSuites: nat): seq<Group> {
    Deal(seq(numSuites, _ => []), Untimed(tests))
  }
}
