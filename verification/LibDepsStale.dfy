/** Which answers of the resolver are right, at every moment of every run and whatever its caches hold. */
module LibDepsStale {
  import opened Sorting
  import opened Digraph
  import opened DepthFirst
  import opened LibDeps
  import opened LibDepsRuns

  /** Cached sorted lists hold only declared dependencies, though perhaps not all of them. */
  ghost predicate SortedDeclared(s: Attributes) {
    forall n, d :: n in s.directSorted && d in s.directSorted[n] ==> d in s.Direct(n)
  }

  /** An answer that says nothing untrue of the declarations, though a list may lack something. */
  ghost predicate Grounded(g: Graph<Node>, roots: seq<Node>, a: Answer) {
    match a
    case Libs(order) => Distinct(order) && Reached(g, roots, order)
    case Cycle(e) => CorrectAnswer(g, roots, a)
  }

  ghost predicate CachedGrounded(s: Attributes) {
    forall n :: n in s.cached ==> Grounded(Declared(s.direct), Linkable(s.direct, n), Libs(s.cached[n]))
  }

  /** What every reachable state of the caches satisfies. */
  ghost predicate Sound(s: Attributes) {
    SortedDeclared(s) && CachedGrounded(s)
  }

  // ----- an answer resolved from what walks see

  lemma {:induction false} TargetsWithin(a: seq<Dependency>, b: seq<Dependency>, hidden: Visibility, v: Node)
    requires (forall d :: d in a ==> d in b) && v in Targets(a, hidden)
    ensures v in Targets(b, hidden)
  {
    var x, y := Filter(Except(hidden), a), Filter(Except(hidden), b);
    var i :| 0 <= i < |Map(TargetOf, x)| && Map(TargetOf, x)[i] == v;
    assert x[i] in x && x[i] in y;
    var j :| 0 <= j < |y| && y[j] == x[i];
    assert Map(TargetOf, y)[j] == v;
  }

  lemma {:induction false} ViewDeclared(str: Naming, s: Attributes, n: Node, d: Dependency)
    requires SortedDeclared(s) && d in s.View(str, n)
    ensures d in s.Direct(n)
  {
    if !(n in s.directSorted && s.directSorted[n] != []) {
      SameElements(Sort(ByName(str), s.Direct(n)), s.Direct(n));
    }
  }

  /** Walks follow declared edges only, and start at declared roots. */
  lemma {:induction false} SeenTargets(str: Naming, s: Attributes, n: Node, hidden: Visibility, v: Node)
    requires SortedDeclared(s) && v in Targets(s.View(str, n), hidden)
    ensures v in Targets(s.Direct(n), hidden)
  {
    forall d | d in s.View(str, n) ensures d in s.Direct(n) { ViewDeclared(str, s, n, d); }
    TargetsWithin(s.View(str, n), s.Direct(n), hidden, v);
  }

  lemma {:induction false} DeclaredKids(direct: map<Node, seq<Dependency>>, a: Node, b: Node)
    ensures Edge(Declared(direct), a, b) <==> b in Targets(if a in direct then direct[a] else [], Private)
  {
  }

  lemma {:induction false} EdgeDeclared(str: Naming, s: Attributes, a: Node, b: Node)
    requires SortedDeclared(s) && Edge(s.Below(str), a, b)
    ensures Edge(Declared(s.direct), a, b)
  {
    KidsAreTargets(s, str, a);
    SeenTargets(str, s, a, Private, b);
    DeclaredKids(s.direct, a, b);
  }

  lemma {:induction false} RootDeclared(str: Naming, s: Attributes, n: Node, v: Node)
    requires SortedDeclared(s) && v in s.Roots(str, n)
    ensures v in Linkable(s.direct, n)
  {
    SeenTargets(str, s, n, Interface, v);
  }

  /** What is true in a graph is true in a larger one. */
  lemma {:induction false} GroundedInMore(g: Graph<Node>, r: seq<Node>, h: Graph<Node>, s: seq<Node>, a: Answer)
    requires (forall x, y :: Edge(g, x, y) ==> Edge(h, x, y)) && Holds(s, r)
    requires Grounded(g, r, a)
    ensures Grounded(h, s, a)
  {
    match a
    case Libs(order) =>
      forall v | v in order ensures ReachesFrom(h, s, v) { ReachesMore(g, r, h, s, v); }
    case Cycle(e) =>
      ReachesMore(g, r, h, s, e[0]);
  }

  lemma {:induction false} ResolvedGrounded(str: Naming, s: Attributes, n: Node)
    requires SortedDeclared(s)
    ensures Grounded(Declared(s.direct), Linkable(s.direct, n), Resolve(s.Below(str), s.Roots(str, n)))
  {
    var g, roots := s.Below(str), s.Roots(str, n);
    ResolveCorrect(g, roots);
    forall a, b | Edge(g, a, b) ensures Edge(Declared(s.direct), a, b) { EdgeDeclared(str, s, a, b); }
    forall v | v in roots ensures v in Linkable(s.direct, n) { RootDeclared(str, s, n, v); }
    GroundedInMore(g, roots, Declared(s.direct), Linkable(s.direct, n), Resolve(g, roots));
  }

  // ----- every reachable state is sound

  lemma {:induction false} AppendSound(str: Naming, s: Attributes, m: Node, deps: seq<Dependency>, t: Attributes)
    requires Sound(s) && Step(str, s, Append(m, deps), t)
    ensures Sound(t)
  {
    assert t.direct == Extended(s.direct, m, deps);
    forall n | n in t.cached ensures Grounded(Declared(t.direct), Linkable(t.direct, n), Libs(t.cached[n])) {
      ExtendedEdges(s.direct, n, m, deps);
      GroundedInMore(Declared(s.direct), Linkable(s.direct, n), Declared(t.direct), Linkable(t.direct, n), Libs(s.cached[n]));
    }
  }

  lemma {:induction false} RefilledDeclared(str: Naming, s: Attributes, t: Attributes)
    requires SortedDeclared(s) && Refreshed(str, s, t)
    ensures SortedDeclared(t)
  {
    forall n, d | n in t.directSorted && d in t.directSorted[n] ensures d in t.Direct(n) {
      assert t.Direct(n) == s.Direct(n);
      if t.directSorted[n] == s.View(str, n) {
        ViewDeclared(str, s, n, d);
      }
    }
  }

  /** A query keeps the state sound, and its answer is grounded. */
  lemma {:induction false} QuerySound(str: Naming, s: Attributes, n: Node, a: Answer, t: Attributes)
    requires Sound(s) && Step(str, s, Query(n, a), t)
    ensures Sound(t) && Grounded(Declared(s.direct), Linkable(s.direct, n), a)
  {
    if n !in s.cached {
      ResolvedGrounded(str, s, n);
      RefilledDeclared(str, s, t);
    }
  }

  lemma {:induction false} RunSound(str: Naming, states: seq<Attributes>, events: seq<Event>, i: nat)
    requires Run(str, states, events) && i <= |events|
    ensures Sound(states[i])
  {
    if i > 0 {
      RunSound(str, states, events, i - 1);
      assert Step(str, states[i - 1], events[i - 1], states[i]);
      match events[i - 1]
      case Append(m, deps) => AppendSound(str, states[i - 1], m, deps, states[i]);
      case Query(n, a) => QuerySound(str, states[i - 1], n, a, states[i]);
    }
  }

  /** What a caller can check of an answer against the declarations of the moment. */
  ghost predicate UpToDate(direct: map<Node, seq<Dependency>>, n: Node, a: Answer) {
    a.Cycle? || (Holds(a.order, Linkable(direct, n)) && Closes(Declared(direct), a.order))
  }

  lemma {:induction false} GroundedRightIff(g: Graph<Node>, roots: seq<Node>, a: Answer)
    requires Grounded(g, roots, a)
    ensures CorrectAnswer(g, roots, a) <==> a.Cycle? || (Holds(a.order, roots) && Closes(g, a.order))
  {
    if a.Libs? {
      CorrectListIff(g, roots, a.order);
    }
  }

  /** At every moment of every run, with any mixture of declarations and queries: an error names a real
      cycle, and a list is right exactly when it holds the direct dependencies declared by now and has
      whatever a listed node depends on by now behind that node. */
  lemma {:induction false} RightIff(str: Naming, states: seq<Attributes>, events: seq<Event>, i: nat)
    requires Run(str, states, events) && i < |events| && events[i].Query?
    ensures var d, n, a := states[i].direct, events[i].node, events[i].answer;
            CorrectAnswer(Declared(d), Linkable(d, n), a) <==> UpToDate(d, n, a)
  {
    RunSound(str, states, events, i);
    assert Step(str, states[i], events[i], states[i + 1]);
    var d, n, a := states[i].direct, events[i].node, events[i].answer;
    QuerySound(str, states[i], n, a, states[i + 1]);
    GroundedRightIff(Declared(d), Linkable(d, n), a);
  }
}
