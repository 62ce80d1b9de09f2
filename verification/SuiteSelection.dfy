/** The selectors written for the sub-suites and for the misc suite, and what they select
    together. */
module SuiteSelection {
  import opened Wrappers
  import opened Sorting
  import opened SuiteSplit
  import opened SuitePacking

  /** The selector section of a suite configuration. */
  datatype Selector = Selector(roots: seq<string>, excludeFiles: Option<seq<string>>)

  /** Empty roots or excludes count as not given; without excludes none are kept. */
  function Updated(sel: Selector, roots: seq<string>, excludes: seq<string>): Selector {
    Selector(
      if roots != [] then roots else sel.roots,
      if excludes == [] then None
      else if sel.excludeFiles.Some? && sel.excludeFiles.value != [] then Some(sel.excludeFiles.value + excludes)
      else Some(excludes))
  }

  class SuiteConfig {
    var selector: Selector

    constructor (selector: Selector)
      ensures this.selector == selector
    {
      this.selector := selector;
    }

    method Update(roots: seq<string>, excludes: seq<string>)
      modifies this
      ensures selector == Updated(old(selector), roots, excludes)
    {
      if roots != [] {
        selector := selector.(roots := roots);
      }
      if excludes != [] {
        if selector.excludeFiles.Some? && selector.excludeFiles.value != [] {
          selector := selector.(excludeFiles := Some(selector.excludeFiles.value + excludes));
        } else {
          selector := selector.(excludeFiles := Some(excludes));
        }
      } else {
        if selector.excludeFiles.Some? {
          selector := selector.(excludeFiles := None);
        }
      }
    }
  }

  // ----- what a selector selects

  /** The tests that a pattern names. */
  type Glob = string -> set<string>

  function Expand(glob: Glob, patterns: seq<string>): set<string> {
    set p, t | p in patterns && t in glob(p) :: t
  }

  function Selected(glob: Glob, sel: Selector): set<string> {
    Expand(glob, sel.roots) - Expand(glob, if sel.excludeFiles.Some? then sel.excludeFiles.value else [])
  }

  function Elements(s: seq<string>): set<string> {
    set t | t in s
  }

  /** Test names are patterns that name themselves. */
  ghost predicate Literal(glob: Glob, tests: seq<string>) {
    forall t :: t in tests ==> glob(t) == {t}
  }

  lemma {:induction false} ExpandLiteral(glob: Glob, tests: seq<string>)
    requires Literal(glob, tests)
    ensures Expand(glob, tests) == Elements(tests)
  {
    forall t | t in tests ensures t in Expand(glob, tests) {
      assert t in glob(t);
    }
  }

  lemma {:induction false} ExpandAppend(glob: Glob, a: seq<string>, b: seq<string>)
    ensures Expand(glob, a + b) == Expand(glob, a) + Expand(glob, b)
  {
  }

  /** A sub-suite selects its tests, unless it has none: then it selects all of the roots. */
  lemma {:induction false} SubSuiteSelects(glob: Glob, src: Selector, tests: seq<string>)
    requires Literal(glob, tests)
    ensures Selected(glob, Updated(src, tests, []))
         == if tests == [] then Expand(glob, src.roots) else Elements(tests)
  {
    ExpandLiteral(glob, tests);
    assert Expand(glob, []) == {};
  }

  /** The misc suite selects what the source does apart from the listed tests, unless none are listed. */
  lemma {:induction false} MiscSelects(glob: Glob, src: Selector, tests: seq<string>)
    requires Literal(glob, tests)
    ensures Selected(glob, Updated(src, [], tests))
         == if tests == [] then Expand(glob, src.roots) else Selected(glob, src) - Elements(tests)
  {
    ExpandLiteral(glob, tests);
    assert Expand(glob, []) == {};
    if src.excludeFiles.Some? {
      ExpandAppend(glob, src.excludeFiles.value, tests);
    }
  }

  // ----- splitting preserves what is run

  ghost predicate Partition(parts: seq<set<string>>, whole: set<string>) {
    && (forall i, j :: 0 <= i < j < |parts| ==> parts[i] !! parts[j])
    && (forall i :: 0 <= i < |parts| ==> parts[i] <= whole)
    && (forall t :: t in whole ==> exists i :: 0 <= i < |parts| && t in parts[i])
  }

  /** What the generated configuration files select: one per group, then the misc suite if wanted. */
  function Rendered(glob: Glob, src: Selector, groups: seq<seq<string>>, testList: seq<string>,
                    createMisc: bool): seq<set<string>> {
    seq(|groups|, i requires 0 <= i < |groups| => Selected(glob, Updated(src, groups[i], [])))
    + if createMisc then [Selected(glob, Updated(src, [], testList))] else []
  }

  lemma {:induction false} FlattenCount(groups: seq<seq<string>>, t: string)
    ensures forall i :: 0 <= i < |groups| && t in groups[i] ==> multiset(Flatten(groups))[t] >= 1
    ensures forall i, j :: 0 <= i < j < |groups| && t in groups[i] && t in groups[j] ==> multiset(Flatten(groups))[t] >= 2
    ensures t in Flatten(groups) ==> exists i :: 0 <= i < |groups| && t in groups[i]
    decreases |groups|
  {
    if groups != [] {
      var n := |groups| - 1;
      FlattenCount(groups[..n], t);
      assert multiset(Flatten(groups)) == multiset(Flatten(groups[..n])) + multiset(groups[n]);
      assert t in groups[n] ==> multiset(groups[n])[t] >= 1;
      if t in Flatten(groups) && t !in groups[n] {
        var i :| 0 <= i < n && t in groups[..n][i];
        assert t in groups[i];
      }
    }
  }

  lemma {:induction false} GroupsInList(groups: seq<seq<string>>, tests: seq<string>, t: string)
    requires multiset(Flatten(groups)) == multiset(tests)
    ensures t in tests <==> exists i :: 0 <= i < |groups| && t in groups[i]
  {
    FlattenCount(groups, t);
    SameElements(Flatten(groups), tests);
    FlattenElements(groups);
  }

  lemma {:induction false} DistinctOnce(groups: seq<seq<string>>, tests: seq<string>, i: nat, j: nat)
    requires Distinct(tests) && multiset(Flatten(groups)) == multiset(tests) && i < j < |groups|
    ensures Elements(groups[i]) !! Elements(groups[j])
  {
    forall t | t in groups[i] ensures t !in groups[j] {
      FlattenCount(groups, t);
      CountDistinct(tests, t);
    }
  }

  lemma {:induction false} PartSelects(glob: Glob, src: Selector, groups: seq<seq<string>>, tests: seq<string>,
                                       createMisc: bool, i: nat)
    requires i < |groups| && groups[i] != [] && multiset(Flatten(groups)) == multiset(tests) && Literal(glob, tests)
    ensures Rendered(glob, src, groups, tests, createMisc)[i] == Elements(groups[i]) <= Elements(tests)
  {
    forall t | t in groups[i] ensures t in tests { GroupsInList(groups, tests, t); }
    SubSuiteSelects(glob, src, groups[i]);
  }

  /** Sub-suites that share out a list of distinct tests select each of the source's tests exactly
      once if and only if the misc suite is created or the list is all of them. */
  lemma {:induction false} SplitPreservesSelection(glob: Glob, src: Selector, groups: seq<seq<string>>,
                                                   tests: seq<string>,
                                                   createMisc: bool)
    requires Distinct(tests) && tests != [] && multiset(Flatten(groups)) == multiset(tests)
    requires forall i :: 0 <= i < |groups| ==> groups[i] != []
    requires Literal(glob, tests) && Elements(tests) <= Selected(glob, src)
    ensures Partition(Rendered(glob, src, groups, tests, createMisc), Selected(glob, src))
       <==> createMisc || Elements(tests) == Selected(glob, src)
  {
    var parts, whole := Rendered(glob, src, groups, tests, createMisc), Selected(glob, src);
    MiscSelects(glob, src, tests);
    assert createMisc ==> parts[|groups|] == whole - Elements(tests);
    forall i | 0 <= i < |groups| ensures parts[i] == Elements(groups[i]) <= Elements(tests) {
      PartSelects(glob, src, groups, tests, createMisc, i);
    }
    forall i, j | 0 <= i < j < |parts| ensures parts[i] !! parts[j] {
      if j < |groups| {
        DistinctOnce(groups, tests, i, j);
      }
    }
    forall t | t in tests ensures exists i :: 0 <= i < |parts| && t in parts[i] {
      GroupsInList(groups, tests, t);
      var i :| 0 <= i < |groups| && t in groups[i];
      assert t in parts[i];
    }
    if createMisc {
      forall t | t in whole && t !in tests ensures exists i :: 0 <= i < |parts| && t in parts[i] {
        assert t in parts[|groups|];
      }
    }
  }

  // ----- the two ways of splitting

  function GroupNames(groups: seq<Group>): seq<seq<string>> {
    seq(|groups|, i requires 0 <= i < |groups| => Names(groups[i]))
  }

  lemma {:induction false} NamesAreMapped(g: Group)
    ensures Names(g) == Map((t: TestRuntime) => t.name, g)
  {
  }

  lemma {:induction false} FlattenNames(groups: seq<Group>)
    ensures Names(Flatten(groups)) == Flatten(GroupNames(groups))
  {
    if groups != [] {
      var n := |groups| - 1;
      FlattenNames(groups[..n]);
      assert GroupNames(groups)[..n] == GroupNames(groups[..n]);
    }
  }

  lemma {:induction false} NamesConserved(groups: seq<Group>, tests: Group)
    requires multiset(Flatten(groups)) == multiset(tests)
    ensures multiset(Flatten(GroupNames(groups))) == multiset(Names(tests))
  {
    FlattenNames(groups);
    NamesAreMapped(Flatten(groups));
    NamesAreMapped(tests);
    MapMultiset((t: TestRuntime) => t.name, Flatten(groups), tests);
  }

  /** With history: the tests that have a runtime are split, the others are left to the misc suite. */
  lemma {:induction false} HistorySplitPreserves(glob: Glob, src: Selector, tests: Group, lim: Limits, createMisc: bool)
    requires Distinct(Names(tests)) && tests != []
    requires Literal(glob, Names(tests)) && Elements(Names(tests)) <= Selected(glob, src)
    ensures Partition(Rendered(glob, src, GroupNames(Divide(tests, lim)), Names(tests), createMisc), Selected(glob, src))
       <==> createMisc || Elements(Names(tests)) == Selected(glob, src)
  {
    DivideConserves(tests, lim);
    DivideWithinLimits(tests, lim);
    NamesConserved(Divide(tests, lim), tests);
    SplitPreservesSelection(glob, src, GroupNames(Divide(tests, lim)), Names(tests), createMisc);
  }

  lemma {:induction false} FallbackConserves(tests: seq<string>, n: nat)
    requires n > 0
    ensures multiset(Flatten(GroupNames(Fallback(tests, n)))) == multiset(tests)
  {
    var empty: seq<Group> := seq(n, _ => []);
    var timed := Untimed(tests);
    FlattenEmpty(n);
    DealConserves(empty, timed, |timed|);
    assert timed[..|timed|] == timed;
    NamesConserved(Fallback(tests, n), timed);
    assert Names(timed) == tests;
  }

  lemma {:induction false} FlattenEmpty(n: nat)
    ensures Flatten(seq<Group>(n, _ => [])) == []
  {
    if n > 0 {
      FlattenEmpty(n - 1);
      assert seq<Group>(n, _ => [])[..n - 1] == seq<Group>(n - 1, _ => []);
    }
  }

  lemma {:induction false} FallbackCount(tests: seq<string>, n: nat, i: nat)
    requires i < n
    ensures GroupNames(Fallback(tests, n))[i] == [] <==> i >= |tests|
  {
    FallbackGroup(tests, n, i);
    DealtEvenly(Untimed(tests), n, i, |tests|);
    SmallDivision(|tests|, n);
  }

  /** A suite left without tests runs everything again. */
  lemma {:induction false} EmptyGroupOverlaps(glob: Glob, src: Selector, groups: seq<seq<string>>, tests: seq<string>,
                                              createMisc: bool)
    requires |groups| > 1 && groups[0] != [] && groups[|groups| - 1] == []
    requires multiset(Flatten(groups)) == multiset(tests)
    requires Literal(glob, tests) && Elements(tests) == Selected(glob, src)
    ensures Expand(glob, src.roots) != {}
    ensures !Partition(Rendered(glob, src, groups, tests, createMisc), Selected(glob, src))
  {
    var parts, t, n := Rendered(glob, src, groups, tests, createMisc), groups[0][0], |groups|;
    PartSelects(glob, src, groups, tests, createMisc, 0);
    SubSuiteSelects(glob, src, []);
    assert t in Elements(groups[0]);
    assert t in parts[0] && t in parts[n - 1];
  }

  lemma {:induction false} FallbackOverlap(glob: Glob, src: Selector, tests: seq<string>, n: nat, createMisc: bool)
    requires 0 < |tests| < n && Literal(glob, tests) && Elements(tests) == Selected(glob, src)
    ensures Expand(glob, src.roots) != {}
    ensures !Partition(Rendered(glob, src, GroupNames(Fallback(tests, n)), tests, createMisc), Selected(glob, src))
  {
    FallbackConserves(tests, n);
    FallbackCount(tests, n, 0);
    FallbackCount(tests, n, n - 1);
    EmptyGroupOverlaps(glob, src, GroupNames(Fallback(tests, n)), tests, createMisc);
  }

  lemma {:induction false} FallbackEnough(glob: Glob, src: Selector, tests: seq<string>, n: nat, createMisc: bool)
    requires 0 < n <= |tests| && Distinct(tests) && Literal(glob, tests) && Elements(tests) == Selected(glob, src)
    ensures Partition(Rendered(glob, src, GroupNames(Fallback(tests, n)), tests, createMisc), Selected(glob, src))
  {
    var groups := GroupNames(Fallback(tests, n));
    FallbackConserves(tests, n);
    forall i | 0 <= i < |groups| ensures groups[i] != [] { FallbackCount(tests, n, i); }
    SplitPreservesSelection(glob, src, groups, tests, createMisc);
  }

  lemma {:induction false} FallbackOfNothing(glob: Glob, src: Selector, n: nat, createMisc: bool)
    requires n > 0 && Selected(glob, src) == {}
    ensures Partition(Rendered(glob, src, GroupNames(Fallback([], n)), [], createMisc), {}) <==> Expand(glob, src.roots) == {}
  {
    var groups, all := GroupNames(Fallback([], n)), Expand(glob, src.roots);
    var parts := Rendered(glob, src, groups, [], createMisc);
    SubSuiteSelects(glob, src, []);
    MiscSelects(glob, src, []);
    forall i | 0 <= i < |parts| ensures parts[i] == all {
      if i < n {
        FallbackCount([], n, i);
      }
    }
    assert parts[0] == all;
  }

  /** Without history all of the source's tests are split. What is run is preserved exactly when
      there are at least as many tests as sub-suites, or the roots name nothing at all. */
  lemma {:induction false} FallbackPreserves(glob: Glob, src: Selector, tests: seq<string>, n: nat, createMisc: bool)
    requires n > 0 && Distinct(tests) && Literal(glob, tests) && Elements(tests) == Selected(glob, src)
    ensures Partition(Rendered(glob, src, GroupNames(Fallback(tests, n)), tests, createMisc), Selected(glob, src))
       <==> n <= |tests| || Expand(glob, src.roots) == {}
  {
    if n <= |tests| {
      FallbackEnough(glob, src, tests, n, createMisc);
    } else if tests != [] {
      FallbackOverlap(glob, src, tests, n, createMisc);
    } else {
      assert Elements(tests) == {};
      FallbackOfNothing(glob, src, n, createMisc);
    }
  }
}
