/** Timeouts derived from a suite's runtime figures. Runtimes are exact reals. */
module SuiteTimeouts {
  import opened Wrappers
  import opened SuiteSplit
  import opened SuitePacking

  const MIN_TIMEOUT_SECONDS := 300
  const AVG_SETUP_TIME := 300

  function Ceil(x: real): int {
    -(-x).Floor
  }

  /** Python's `runtime % 60` for a runtime of either sign. */
  function Mod60(runtime: real): real {
    runtime - 60.0 * (runtime / 60.0).Floor as real
  }

  function RoundToMinute(runtime: real): int {
    Ceil(runtime + (60.0 - Mod60(runtime)))
  }

  function CalculateTimeout(avgRuntime: real, scalingFactor: int): int {
    var rounded := RoundToMinute(avgRuntime);
    (if rounded > MIN_TIMEOUT_SECONDS then rounded else MIN_TIMEOUT_SECONDS) * scalingFactor + AVG_SETUP_TIME
  }

  datatype TimeoutEstimate = TimeoutEstimate(maxTestRuntime: Option<real>, expectedTaskRuntime: Option<real>) {
    function TestTimeout(repeatFactor: int): Option<int> {
      if maxTestRuntime.None? then None
      else Some(CalculateTimeout(maxTestRuntime.value, 3) * repeatFactor)
    }

    function TaskTimeout(repeatFactor: int): Option<int> {
      if expectedTaskRuntime.None? then None
      else Some(CalculateTimeout(expectedTaskRuntime.value, 3) * repeatFactor)
    }
  }

  /** An estimate is given exactly when every test of the suite has a known runtime; it is the
      longest test and the whole task with its overhead. */
  method GetTimeoutEstimate(s: Suite, ghost g: Group) returns (e: TimeoutEstimate)
    requires s.Holds(g)
    ensures e == if forall t :: t in g ==> t.runtime != 0.0
                 then TimeoutEstimate(Some(Longest(g)), Some(Total(g) + s.taskOverhead))
                 else TimeoutEstimate(None, None)
  {
    AllTimed(g);
    if |s.tests| == s.testsWithRuntimeInfo {
      return TimeoutEstimate(Some(s.maxRuntime), Some(s.totalRuntime + s.taskOverhead));
    }
    return TimeoutEstimate(None, None);
  }

  function HookOverhead(tests: nat, cadence: int, avgHookRuntime: real): real
    requires cadence > 0
  {
    tests as real / cadence as real * avgHookRuntime
  }

  /** `cadence` tests cost one run of the hook, and tests add up. */
  lemma {:induction false} HookOverheadMeaning(a: nat, b: nat, cadence: int, avgHookRuntime: real)
    requires cadence > 0
    ensures HookOverhead(cadence, cadence, avgHookRuntime) == avgHookRuntime
    ensures HookOverhead(a + b, cadence, avgHookRuntime)
         == HookOverhead(a, cadence, avgHookRuntime) + HookOverhead(b, cadence, avgHookRuntime)
  {
    var c := cadence as real;
    assert c / c == 1.0;
    assert (a + b) as real / c == a as real / c + b as real / c;
  }

  /** The hook that runs every `cadence` tests is charged to each suite in proportion to its tests. */
  method AddTaskHookOverhead(suites: seq<Suite>, cadence: int, avgHookRuntime: real)
    requires cadence > 0
    requires forall i, j :: 0 <= i < j < |suites| ==> suites[i] != suites[j]
    modifies suites`taskOverhead
    ensures forall i :: 0 <= i < |suites| ==>
              suites[i].taskOverhead == old(suites[i].taskOverhead) + HookOverhead(|suites[i].tests|, cadence, avgHookRuntime)
  {
    if avgHookRuntime != 0.0 {
      for k := 0 to |suites|
        invariant forall i :: 0 <= i < k ==>
                    suites[i].taskOverhead == old(suites[i].taskOverhead) + HookOverhead(|suites[i].tests|, cadence, avgHookRuntime)
        invariant forall i :: k <= i < |suites| ==> suites[i].taskOverhead == old(suites[i].taskOverhead)
      {
        suites[k].taskOverhead := suites[k].taskOverhead + HookOverhead(|suites[k].tests|, cadence, avgHookRuntime);
      }
    }
  }

  // ----- what the timeouts guarantee

  /** The next whole minute after the runtime, strictly. */
  lemma {:induction false} RoundToMinuteMeaning(runtime: real)
    ensures RoundToMinute(runtime) == 60 * ((runtime / 60.0).Floor + 1)
    ensures runtime < RoundToMinute(runtime) as real <= runtime + 60.0
  {
    var q := (runtime / 60.0).Floor;
    assert q as real <= runtime / 60.0 < q as real + 1.0;
    assert runtime + (60.0 - Mod60(runtime)) == (60 * (q + 1)) as real;
  }

  /** A whole number of minutes, and more than three times the runtime for each repetition. */
  predicate Covers(timeout: int, runtime: real, repeat: int) {
    timeout % 60 == 0 && timeout as real > 3.0 * runtime * repeat as real
  }

  lemma {:induction false} TimeoutMeaning(runtime: real, repeat: int)
    requires repeat >= 1
    ensures Covers(CalculateTimeout(runtime, 3) * repeat, runtime, repeat)
  {
    RoundToMinuteMeaning(runtime);
    var q := (runtime / 60.0).Floor + 1;
    var m := if q > 5 then q else 5;
    var t := CalculateTimeout(runtime, 3);
    assert t == 60 * (3 * m + 5);
    assert t * repeat == 60 * ((3 * m + 5) * repeat);
    MultipleOf60((3 * m + 5) * repeat);
    assert t as real > 3.0 * runtime;
    Scale(t, 3.0 * runtime, repeat);
  }

  /** A timeout is never below `scalingFactor` times five minutes and five minutes for the setup, which
      is what runtimes below five minutes get; longer ones get the factor times the next whole minute,
      and the setup. */
  lemma {:induction false} TimeoutFloor(runtime: real, scalingFactor: int)
    requires scalingFactor >= 1
    ensures CalculateTimeout(runtime, scalingFactor) >= 300 * scalingFactor + 300
    ensures CalculateTimeout(runtime, scalingFactor) == 300 * scalingFactor + 300 <==> runtime < 300.0
    ensures runtime >= 240.0 ==>
              CalculateTimeout(runtime, scalingFactor) == 60 * ((runtime / 60.0).Floor + 1) * scalingFactor + 300
  {
    RoundToMinuteMeaning(runtime);
    var q := (runtime / 60.0).Floor;
    Minutes(runtime, 5);
    Minutes(runtime, 4);
    var m := if q + 1 > 5 then q + 1 else 5;
    assert CalculateTimeout(runtime, scalingFactor) == 60 * m * scalingFactor + 300;
    Scaled(m, scalingFactor);
  }

  /** The timeouts of an estimate: three times five minutes and the setup per repetition for runtimes below
      five minutes, three times the next whole minute and the setup for longer ones. */
  lemma {:induction false} EstimateTimeouts(test: real, task: real, repeat: int)
    ensures var e := TimeoutEstimate(Some(test), Some(task));
            && e.TestTimeout(repeat) == Some(TimeoutOf(test) * repeat)
            && e.TaskTimeout(repeat) == Some(TimeoutOf(task) * repeat)
  {
    TimeoutFloor(test, 3);
    TimeoutFloor(task, 3);
  }

  /** In seconds, for one repetition. */
  function TimeoutOf(runtime: real): int {
    if runtime < 300.0 then 1200 else 180 * ((runtime / 60.0).Floor + 1) + 300
  }

  lemma {:induction false} Minutes(runtime: real, m: int)
    ensures (runtime / 60.0).Floor >= m <==> runtime >= 60.0 * m as real
  {
    assert runtime / 60.0 >= m as real <==> runtime >= 60.0 * m as real;
  }

  lemma {:induction false} Scaled(m: int, factor: int)
    requires m >= 5 && factor >= 1
    ensures 60 * m * factor >= 300 * factor && (60 * m * factor == 300 * factor <==> m == 5)
  {
    var d := 60 * (m - 5);
    Distribute(300, d, factor);
    AtLeast(d, factor);
    assert 60 * m == 300 + d;
  }

  lemma {:induction false} Distribute(a: int, b: int, f: int)
    ensures (a + b) * f == a * f + b * f
  {
  }

  lemma {:induction false} AtLeast(a: int, f: int)
    requires a >= 0 && f >= 1
    ensures a * f >= a && (a * f == 0 <==> a == 0)
  {
    assert a * (f - 1) >= 0;
  }

  /** The fallback split gives no estimate for a suite with tests; a suite without any counts as one
      whose runtimes are all known. */
  method FallbackEstimates(tests: seq<string>, numSuites: nat) returns (estimates: seq<TimeoutEstimate>)
    requires numSuites > 0
    ensures |estimates| == numSuites
    ensures forall i :: 0 <= i < numSuites ==>
              estimates[i] == if i < |tests| then TimeoutEstimate(None, None) else TimeoutEstimate(Some(0.0), Some(0.0))
  {
    var suites := FallbackSuites(tests, numSuites);
    ghost var groups := Fallback(tests, numSuites);
    estimates := [];
    for i := 0 to numSuites
      invariant |estimates| == i && Hold(suites, groups)
      invariant forall k :: 0 <= k < i ==>
                  estimates[k] == if k < |tests| then TimeoutEstimate(None, None) else TimeoutEstimate(Some(0.0), Some(0.0))
    {
      FallbackRuntimes(tests, numSuites, i);
      var e := GetTimeoutEstimate(suites[i], groups[i]);
      estimates := estimates + [e];
    }
  }

  lemma {:induction false} FallbackRuntimes(tests: seq<string>, n: nat, i: nat)
    requires i < n
    ensures |Fallback(tests, n)| == n
    ensures (forall t :: t in Fallback(tests, n)[i] ==> t.runtime != 0.0) <==> i >= |tests|
    ensures i >= |tests| ==> Fallback(tests, n)[i] == []
  {
    FallbackHolds(tests, n, i);
    SmallDivision(|tests|, n);
    SmallDivision(i, n);
    if i < |tests| {
      FallbackAt(tests, n, i, i);
      assert Fallback(tests, n)[i][0] in Fallback(tests, n)[i];
    }
  }

  lemma {:induction false} MultipleOf60(x: int)
    ensures (60 * x) % 60 == 0
  {
  }

  lemma {:induction false} Scale(t: int, x: real, repeat: int)
    requires t as real > x && repeat >= 1
    ensures (t * repeat) as real > x * repeat as real
  {
    assert (t * repeat) as real == t as real * repeat as real;
    assert (t as real - x) * repeat as real > 0.0;
  }

  lemma {:induction false} TimeoutMonotone(a: real, b: real, repeat: int)
    requires a <= b && repeat >= 1
    ensures CalculateTimeout(a, 3) * repeat <= CalculateTimeout(b, 3) * repeat
  {
    RoundToMinuteMeaning(a);
    RoundToMinuteMeaning(b);
    assert a / 60.0 <= b / 60.0;
    assert (a / 60.0).Floor <= (b / 60.0).Floor;
    var x, y := CalculateTimeout(a, 3), CalculateTimeout(b, 3);
    assert x <= y;
    assert (y - x) * repeat >= 0;
  }

  lemma {:induction false} LongestAtMostTotal(g: Group)
    requires forall t :: t in g ==> t.runtime >= 0.0
    ensures 0.0 <= Longest(g) <= Total(g)
    decreases |g|
  {
    if g != [] {
      var init := g[..|g| - 1];
      LongestAtMostTotal(init);
      assert g == init + [g[|g| - 1]];
      Snoc(init, g[|g| - 1]);
    }
  }

  /** For any suite of nonnegative runtimes and overhead: the timeouts are whole minutes, leave room
      for the longest test and for the whole task three times over per repetition, and the task
      never times out before a test may. */
  lemma {:induction false} SuiteTimeoutsSafe(g: Group, overhead: real, repeat: int)
    requires (forall t :: t in g ==> t.runtime >= 0.0) && overhead >= 0.0 && repeat >= 1
    ensures var e := TimeoutEstimate(Some(Longest(g)), Some(Total(g) + overhead));
            var test, task := e.TestTimeout(repeat).value, e.TaskTimeout(repeat).value;
            && test <= task
            && Covers(test, Longest(g), repeat)
            && Covers(task, Total(g) + overhead, repeat)
  {
    var longest, total := Longest(g), Total(g) + overhead;
    LongestAtMostTotal(g);
    TimeoutMeaning(longest, repeat);
    TimeoutMeaning(total, repeat);
    TimeoutMonotone(longest, total, repeat);
  }

  lemma {:induction false} AllTimed(g: Group)
    ensures InfoCount(g) <= |g|
    ensures InfoCount(g) == |g| <==> forall t :: t in g ==> t.runtime != 0.0
    decreases |g|
  {
    if g != [] {
      var init := g[..|g| - 1];
      AllTimed(init);
      assert g == init + [g[|g| - 1]];
    }
  }
}
