/** Runs of declarations and queries on the resolver: when its two caches are right, and what one
    declaration does to an answer they keep. */
module LibDepsRuns {
  import opened Sorting
  import opened Digraph
  import opened DepthFirst
  import opened LibDeps

  /** The cached sorted lists, if not empty, are those of the declared dependencies. */
  ghost predicate SortedRight(str: Naming, s: Attributes) {
    forall n :: n in s.directSorted && s.directSorted[n] != [] ==> s.directSorted[n] == Sort(ByName(str), s.Direct(n))
  }

  /** The cached answers are those of the declared dependencies. */
  ghost predicate AnswersRight(str: Naming, s: Attributes) {
    forall n :: n in s.cached ==> FreshAnswer(str, s.direct, n) == Libs(s.cached[n])
  }

  /** Whatever a cached answer rests on has been looked up. */
  ghost predicate AnswersSeen(s: Attributes) {
    forall n :: n in s.cached ==> n in s.directSorted && Seen([], s.cached[n], s.directSorted)
  }

  ghost predicate Coherent(str: Naming, s: Attributes) {
    SortedRight(str, s) && AnswersRight(str, s) && AnswersSeen(s)
  }

  lemma {:induction false} SortedView(str: Naming, s: Attributes, n: Node)
    requires SortedRight(str, s)
    ensures s.View(str, n) == Sort(ByName(str), s.Direct(n)) == Attributes(s.direct, map[], map[]).View(str, n)
  {
  }

  lemma {:induction false} AnswerIsFresh(str: Naming, s: Attributes, n: Node)
    requires SortedRight(str, s)
    ensures Resolve(s.Below(str), s.Roots(str, n)) == FreshAnswer(str, s.direct, n)
  {
    var bare := Attributes(s.direct, map[], map[]);
    forall m ensures SeenAlike(str, s, bare, m) { SortedView(str, s, m); }
    SameBelow(str, s, bare);
    SortedView(str, s, n);
  }

  lemma {:induction false} RefillAt(str: Naming, s: Attributes, t: Attributes, n: Node)
    requires SortedRight(str, s) && Refreshed(str, s, t) && n in t.directSorted && t.directSorted[n] != []
    ensures t.directSorted[n] == Sort(ByName(str), t.Direct(n))
  {
    assert t.Direct(n) == s.Direct(n);
    if t.directSorted[n] == s.View(str, n) {
      SortedView(str, s, n);
    }
  }

  lemma {:induction false} RefillIsFresh(str: Naming, s: Attributes, t: Attributes)
    requires SortedRight(str, s) && Refreshed(str, s, t)
    ensures SortedRight(str, t)
  {
    forall n | n in t.directSorted && t.directSorted[n] != [] ensures t.directSorted[n] == Sort(ByName(str), t.Direct(n)) {
      RefillAt(str, s, t, n);
    }
  }

  /** A query answers from the declarations and keeps the caches coherent. */
  lemma {:induction false} QueryIsFresh(str: Naming, s: Attributes, n: Node, a: Answer, t: Attributes)
    requires Coherent(str, s) && Step(str, s, Query(n, a), t)
    ensures Coherent(str, t) && t.direct == s.direct && a == FreshAnswer(str, s.direct, n)
  {
    if n !in s.cached {
      AnswerIsFresh(str, s, n);
      RefillIsFresh(str, s, t);
      StillSeen(str, s, n, a, t);
    }
  }

  lemma {:induction false} StillSeen(str: Naming, s: Attributes, n: Node, a: Answer, t: Attributes)
    requires AnswersSeen(s) && Step(str, s, Query(n, a), t) && n !in s.cached
    ensures AnswersSeen(t)
  {
  }

  // ----- declarations that do no harm

  function Extended(direct: map<Node, seq<Dependency>>, m: Node, deps: seq<Dependency>): map<Node, seq<Dependency>> {
    direct[m := (if m in direct then direct[m] else []) + deps]
  }

  lemma {:induction false} UnrelatedView(str: Naming, s: Attributes, t: Attributes, m: Node, deps: seq<Dependency>,
                                         v: Node)
    requires s.directSorted == t.directSorted && t.direct == Extended(s.direct, m, deps) && v != m
    ensures t.View(str, v) == s.View(str, v) && Kids(s.Below(str), v) == Kids(t.Below(str), v)
  {
    assert t.Direct(v) == s.Direct(v);
    KidsAreTargets(s, str, v);
    KidsAreTargets(t, str, v);
  }

  /** A declaration for a node that an answer does not rest on leaves that answer as it was. */
  lemma {:induction false} UnrelatedDeclaration(str: Naming, direct: map<Node, seq<Dependency>>, n: Node,
                                                order: seq<Node>, m: Node, deps: seq<Dependency>)
    requires FreshAnswer(str, direct, n) == Libs(order) && m != n && m !in order
    ensures FreshAnswer(str, Extended(direct, m, deps), n) == Libs(order)
  {
    var s, t := Attributes(direct, map[], map[]), Attributes(Extended(direct, m, deps), map[], map[]);
    var g, h, roots := s.Below(str), t.Below(str), s.Roots(str, n);
    var listed := Explore(g, roots).walk.tsorted;
    ReverseElements(listed);
    forall v | v in listed ensures Kids(g, v) == Kids(h, v) {
      UnrelatedView(str, s, t, m, deps, v);
    }
    ExploreLocal(g, h, roots);
    UnrelatedView(str, s, t, m, deps, n);
  }

  /** Declaring dependencies of a node no query has looked at keeps the caches coherent. */
  lemma {:induction false} UnseenDeclaration(str: Naming, s: Attributes, m: Node, deps: seq<Dependency>, t: Attributes)
    requires Coherent(str, s) && Step(str, s, Append(m, deps), t) && m !in s.directSorted
    ensures Coherent(str, t)
  {
    forall n | n in t.cached ensures FreshAnswer(str, t.direct, n) == Libs(t.cached[n]) {
      UnrelatedDeclaration(str, s.direct, n, s.cached[n], m, deps);
    }
  }

  // ----- runs

  ghost predicate Run(str: Naming, states: seq<Attributes>, events: seq<Event>) {
    && |states| == |events| + 1
    && states[0] == Attributes(map[], map[], map[])
    && forall i, j :: 0 <= i < |events| && j == i + 1 ==> Step(str, states[i], events[i], states[j])
  }

  /** No declaration is made for a node that an earlier query has looked at. */
  ghost predicate DeclaresUnseen(states: seq<Attributes>, events: seq<Event>)
    requires |states| == |events| + 1
  {
    forall i :: 0 <= i < |events| && events[i].Append? ==> events[i].node !in states[i].directSorted
  }

  lemma {:induction false} RunCoherent(str: Naming, states: seq<Attributes>, events: seq<Event>, i: nat)
    requires Run(str, states, events) && DeclaresUnseen(states, events) && i <= |events|
    ensures Coherent(str, states[i])
  {
    if i > 0 {
      RunCoherent(str, states, events, i - 1);
      assert Step(str, states[i - 1], events[i - 1], states[i]);
      match events[i - 1]
      case Append(m, deps) => UnseenDeclaration(str, states[i - 1], m, deps, states[i]);
      case Query(n, a) => QueryIsFresh(str, states[i - 1], n, a, states[i]);
    }
  }

  /** However declarations and queries are mixed, as long as no declaration is made for a node looked
      at before, every answer is the one computed afresh from what is declared at that moment. */
  lemma {:induction false} NeverStale(str: Naming, states: seq<Attributes>, events: seq<Event>, i: nat)
    requires Run(str, states, events) && DeclaresUnseen(states, events) && i < |events| && events[i].Query?
    ensures events[i].answer == FreshAnswer(str, states[i].direct, events[i].node)
  {
    RunCoherent(str, states, events, i);
    assert Step(str, states[i], events[i], states[i + 1]);
    QueryIsFresh(str, states[i], events[i].node, events[i].answer, states[i + 1]);
  }

  ghost predicate DeclaresFirst(events: seq<Event>, k: nat) {
    forall j :: 0 <= j < |events| ==> (events[j].Append? <==> j < k)
  }

  lemma {:induction false} NothingSeen(str: Naming, states: seq<Attributes>, events: seq<Event>, k: nat, i: nat)
    requires Run(str, states, events) && DeclaresFirst(events, k) && i <= k <= |events|
    ensures states[i].directSorted == map[] && states[i].cached == map[]
  {
    if i > 0 {
      NothingSeen(str, states, events, k, i - 1);
      assert Step(str, states[i - 1], events[i - 1], states[i]);
    }
  }

  lemma {:induction false} QueryKeepsDirect(str: Naming, s: Attributes, n: Node, a: Answer, t: Attributes)
    requires Step(str, s, Query(n, a), t)
    ensures t.direct == s.direct
  {
  }

  lemma {:induction false} DeclarationsKept(str: Naming, states: seq<Attributes>, events: seq<Event>, k: nat, i: nat)
    requires Run(str, states, events) && DeclaresFirst(events, k) && k <= i <= |events|
    ensures states[i].direct == states[k].direct
  {
    if i > k {
      DeclarationsKept(str, states, events, k, i - 1);
      var e := events[i - 1];
      assert Step(str, states[i - 1], e, states[i]) && e == Query(e.node, e.answer);
      QueryKeepsDirect(str, states[i - 1], e.node, e.answer, states[i]);
    }
  }

  /** In a run that declares first and queries afterwards, no query ever sees a stale cache. */
  lemma {:induction false} DeclareThenQuery(str: Naming, states: seq<Attributes>, events: seq<Event>, k: nat, i: nat)
    requires Run(str, states, events) && DeclaresFirst(events, k) && k <= i < |events|
    ensures events[i].answer == FreshAnswer(str, states[|events|].direct, events[i].node)
  {
    forall j | 0 <= j < |events| && events[j].Append? ensures events[j].node !in states[j].directSorted {
      NothingSeen(str, states, events, k, j);
    }
    NeverStale(str, states, events, i);
    DeclarationsKept(str, states, events, k, i);
    DeclarationsKept(str, states, events, k, |events|);
  }

  // ----- declarations that come too late

  lemma {:induction false} LateView(str: Naming, s: Attributes, m: Node, deps: seq<Dependency>, t: Attributes, n: Node)
    requires Step(str, s, Append(m, deps), t) && m in s.directSorted && s.directSorted[m] != []
    ensures t.View(str, n) == s.View(str, n)
  {
    assert n != m ==> t.Direct(n) == s.Direct(n);
  }

  /** Once a nonempty sorted list is cached for a node, declarations for it are seen by no query that
      resolves afresh, whichever node it asks about. */
  lemma {:induction false} DeclarationUnseen(str: Naming, s: Attributes, m: Node, deps: seq<Dependency>,
                                             t: Attributes, n: Node)
    requires Step(str, s, Append(m, deps), t) && m in s.directSorted && s.directSorted[m] != []
    ensures Resolve(t.Below(str), t.Roots(str, n)) == Resolve(s.Below(str), s.Roots(str, n))
  {
    forall k ensures SeenAlike(str, s, t, k) { LateView(str, s, m, deps, t, k); }
    SameBelow(str, s, t);
    LateView(str, s, m, deps, t, n);
  }

  /** Whatever a listed node depends on comes later in the list. */
  ghost predicate Closes(g: Graph<Node>, order: seq<Node>) {
    forall i, k :: 0 <= i < |order| && Edge(g, order[i], k) ==> k in order[i + 1..]
  }

  ghost predicate Holds(order: seq<Node>, vs: seq<Node>) {
    forall v :: v in vs ==> v in order
  }

  ghost predicate Reached(g: Graph<Node>, roots: seq<Node>, order: seq<Node>) {
    forall v :: v in order ==> ReachesFrom(g, roots, v)
  }

  /** A list is a correct answer exactly when it holds the roots, everything in it is reached from
      them, and it lists dependencies later. */
  lemma {:induction false} CorrectListIff(g: Graph<Node>, roots: seq<Node>, order: seq<Node>)
    ensures CorrectAnswer(g, roots, Libs(order)) <==>
            Distinct(order) && Holds(order, roots) && Reached(g, roots, order) && Closes(g, order)
  {
    if CorrectAnswer(g, roots, Libs(order)) {
      CorrectListCloses(g, roots, order);
    }
    if Distinct(order) && Holds(order, roots) && Reached(g, roots, order) && Closes(g, order) {
      ClosedListCorrect(g, roots, order);
    }
  }

  lemma {:induction false} ListedLater(g: Graph<Node>, roots: seq<Node>, order: seq<Node>, i: nat, k: Node)
    requires CorrectAnswer(g, roots, Libs(order)) && i < |order| && Edge(g, order[i], k)
    ensures k in order[i + 1..]
  {
    assert order[i] in order;
    var r :| r in roots && Reaches(g, r, order[i]);
    ReachesEdge(g, r, order[i], k);
    assert k in order;
    var j :| 0 <= j < |order| && order[j] == k;
    assert order[i + 1..][j - i - 1] == k;
  }

  lemma {:induction false} CorrectListCloses(g: Graph<Node>, roots: seq<Node>, order: seq<Node>)
    requires CorrectAnswer(g, roots, Libs(order))
    ensures Holds(order, roots) && Closes(g, order)
  {
    forall v | v in roots ensures v in order {
      ReachesSelf(g, v);
    }
    forall i, k | 0 <= i < |order| && Edge(g, order[i], k) ensures k in order[i + 1..] {
      ListedLater(g, roots, order, i, k);
    }
  }

  lemma {:induction false} ReachesEdge(g: Graph<Node>, a: Node, b: Node, c: Node)
    requires Reaches(g, a, b) && Edge(g, b, c)
    ensures Reaches(g, a, c)
  {
    var p :| |p| > 0 && Linked(g, p) && p[0] == a && p[|p| - 1] == b;
    LinkedJoin(g, p, [c]);
    var q := p + [c];
    assert |q| > 0 && Linked(g, q) && q[0] == a && q[|q| - 1] == c;
  }

  lemma {:induction false} ListedBefore(g: Graph<Node>, order: seq<Node>, i: nat, k: Node)
    requires Closes(g, order) && i < |order| && Edge(g, Reverse(order)[i], k)
    ensures k in Reverse(order)[..i]
  {
    var p := |order| - 1 - i;
    assert Edge(g, order[p], k);
    var j :| 0 <= j < |order[p + 1..]| && order[p + 1..][j] == k;
    assert Reverse(order)[..i][i - 1 - j] == k;
  }

  lemma {:induction false} ClosedIsTopological(g: Graph<Node>, order: seq<Node>)
    requires Distinct(order) && Closes(g, order)
    ensures Topological(g, Walk(set v | v in order, {}, Reverse(order)))
  {
    var rev := Reverse(order);
    ReverseElements(order);
    forall i, k | 0 <= i < |rev| && k in Kids(g, rev[i]) ensures k in rev[..i] {
      ListedBefore(g, order, i, k);
    }
  }

  lemma {:induction false} TopologicalCorrect(g: Graph<Node>, roots: seq<Node>, order: seq<Node>, w: Walk<Node>)
    requires Topological(g, w) && order == Reverse(w.tsorted)
    requires Holds(order, roots) && Reached(g, roots, order)
    ensures CorrectAnswer(g, roots, Libs(order))
  {
    ReversedTopological(g, w);
    assert forall r :: r in roots ==> r in w.tsorted;
    TopologicalCloses(g, roots, w);
    forall v ensures v in order <==> ReachesFrom(g, roots, v) {
      assert v in order <==> v in w.tsorted;
    }
  }

  lemma {:induction false} ClosedListCorrect(g: Graph<Node>, roots: seq<Node>, order: seq<Node>)
    requires Distinct(order) && Holds(order, roots) && Reached(g, roots, order) && Closes(g, order)
    ensures CorrectAnswer(g, roots, Libs(order))
  {
    ClosedIsTopological(g, order);
    assert order == Reverse(Reverse(order));
    TopologicalCorrect(g, roots, order, Walk(set v | v in order, {}, Reverse(order)));
  }

  /** What a caller can check of the list it was given: the new dependencies are already in it, and
      those that are followed come behind the node they were declared for. */
  ghost predicate StillCovers(order: seq<Node>, n: Node, m: Node, deps: seq<Dependency>) {
    && (m == n ==> Holds(order, Targets(deps, Interface)))
    && (forall i :: 0 <= i < |order| && order[i] == m ==> Holds(order[i + 1..], Targets(deps, Private)))
  }

  lemma {:induction false} TargetsAppend(a: seq<Dependency>, b: seq<Dependency>, hidden: Visibility)
    ensures forall v :: v in Targets(a + b, hidden) <==> v in Targets(a, hidden) || v in Targets(b, hidden)
  {
    FilterAppend(Except(hidden), a, b);
    var x, y := Filter(Except(hidden), a), Filter(Except(hidden), b);
    assert Targets(a + b, hidden) == Map(TargetOf, x) + Map(TargetOf, y);
  }

  lemma {:induction false} ExtendedEdges(direct: map<Node, seq<Dependency>>, n: Node, m: Node, deps: seq<Dependency>)
    ensures forall a, b :: Edge(Declared(Extended(direct, m, deps)), a, b) <==>
                           Edge(Declared(direct), a, b) || (a == m && b in Targets(deps, Private))
    ensures forall v :: v in Linkable(Extended(direct, m, deps), n) <==>
                        v in Linkable(direct, n) || (m == n && v in Targets(deps, Interface))
  {
    var before := if m in direct then direct[m] else [];
    TargetsAppend(before, deps, Private);
    TargetsAppend(before, deps, Interface);
  }

  lemma {:induction false} ReachesMore(g: Graph<Node>, r: seq<Node>, h: Graph<Node>, s: seq<Node>, v: Node)
    requires (forall a, b :: Edge(g, a, b) ==> Edge(h, a, b)) && Holds(s, r)
    requires ReachesFrom(g, r, v)
    ensures ReachesFrom(h, s, v)
  {
    var a :| a in r && Reaches(g, a, v);
    var p :| |p| > 0 && Linked(g, p) && p[0] == a && p[|p| - 1] == v;
    assert Linked(h, p);
    assert Reaches(h, a, v);
  }

  lemma {:induction false} ClosesMore(g: Graph<Node>, h: Graph<Node>, order: seq<Node>, m: Node, added: seq<Node>)
    requires forall a, b :: Edge(h, a, b) <==> Edge(g, a, b) || (a == m && b in added)
    requires Closes(g, order)
    ensures Closes(h, order) <==> forall i :: 0 <= i < |order| && order[i] == m ==> Holds(order[i + 1..], added)
  {
    if Closes(h, order) {
      forall i, v | 0 <= i < |order| && order[i] == m && v in added ensures v in order[i + 1..] {
        assert Edge(h, order[i], v);
      }
    }
  }

  /** A correct list is correct for more edges out of one node and more roots exactly when it covers them. */
  lemma {:induction false} CorrectForMore(g: Graph<Node>, r: seq<Node>, h: Graph<Node>, s: seq<Node>, order: seq<Node>,
                                          m: Node, kids: seq<Node>, roots: seq<Node>)
    requires forall a, b :: Edge(h, a, b) <==> Edge(g, a, b) || (a == m && b in kids)
    requires forall v :: v in s <==> v in r || v in roots
    requires CorrectAnswer(g, r, Libs(order))
    ensures CorrectAnswer(h, s, Libs(order)) <==>
              && Holds(order, roots)
              && forall i :: 0 <= i < |order| && order[i] == m ==> Holds(order[i + 1..], kids)
  {
    CorrectListIff(g, r, order);
    CorrectListIff(h, s, order);
    ClosesMore(g, h, order, m, kids);
    HoldsMore(order, r, s, roots);
    forall v | v in order ensures ReachesFrom(h, s, v) {
      ReachesMore(g, r, h, s, v);
    }
  }

  lemma {:induction false} HoldsMore(order: seq<Node>, r: seq<Node>, s: seq<Node>, roots: seq<Node>)
    requires (forall v :: v in s <==> v in r || v in roots) && Holds(order, r)
    ensures Holds(order, s) <==> Holds(order, roots)
  {
  }

  /** After a declaration a list that was a correct answer still is one exactly when it covers the new
      dependencies. */
  lemma {:induction false} StillCorrectIff(direct: map<Node, seq<Dependency>>, n: Node, order: seq<Node>,
                                           m: Node, deps: seq<Dependency>)
    requires CorrectAnswer(Declared(direct), Linkable(direct, n), Libs(order))
    ensures CorrectAnswer(Declared(Extended(direct, m, deps)), Linkable(Extended(direct, m, deps), n), Libs(order))
       <==> StillCovers(order, n, m, deps)
  {
    var g, r := Declared(direct), Linkable(direct, n);
    var h, s := Declared(Extended(direct, m, deps)), Linkable(Extended(direct, m, deps), n);
    ExtendedEdges(direct, n, m, deps);
    CorrectForMore(g, r, h, s, order, m, Targets(deps, Private), if m == n then Targets(deps, Interface) else []);
  }

  /** An answer of the declarations so far is right after one more exactly when it names a cycle or
      covers the new dependencies. */
  lemma {:induction false} StillRightIff(direct: map<Node, seq<Dependency>>, n: Node, a: Answer,
                                         m: Node, deps: seq<Dependency>)
    requires CorrectAnswer(Declared(direct), Linkable(direct, n), a)
    ensures CorrectAnswer(Declared(Extended(direct, m, deps)), Linkable(Extended(direct, m, deps), n), a)
       <==> a.Cycle? || StillCovers(a.order, n, m, deps)
  {
    match a
    case Libs(order) => StillCorrectIff(direct, n, order, m, deps);
    case Cycle(e) =>
      ExtendedEdges(direct, n, m, deps);
      ReachesMore(Declared(direct), Linkable(direct, n), Declared(Extended(direct, m, deps)),
                  Linkable(Extended(direct, m, deps), n), e[0]);
  }

  /** A declaration for `m` does not reach a query of `n`: the answer is cached, or the sorted list is. */
  ghost predicate Hidden(s: Attributes, m: Node, n: Node) {
    n in s.cached || (m in s.directSorted && s.directSorted[m] != [])
  }

  /** A query after a declaration, in any state of the caches. Where the declaration is hidden it gives
      the answer of before, and if that was right it is wrong by now exactly when it is a list that does
      not cover the declaration. Where it is not, and the caches were coherent, it sees the declaration. */
  lemma {:induction false} QueryAfterDeclaration(str: Naming, s: Attributes, n: Node, before: Answer, s': Attributes,
                                                 m: Node, deps: seq<Dependency>, t: Attributes, a: Answer, u: Attributes)
    requires Step(str, s, Query(n, before), s')
    requires Step(str, s, Append(m, deps), t) && Step(str, t, Query(n, a), u)
    ensures Hidden(s, m, n) ==> a == before
    ensures Hidden(s, m, n) && CorrectAnswer(Declared(s.direct), Linkable(s.direct, n), before) ==>
              (CorrectAnswer(Declared(t.direct), Linkable(t.direct, n), a) <==>
               a.Cycle? || StillCovers(a.order, n, m, deps))
    ensures !Hidden(s, m, n) && Coherent(str, s) ==> a == FreshAnswer(str, t.direct, n)
  {
    if Hidden(s, m, n) {
      if n !in s.cached {
        DeclarationUnseen(str, s, m, deps, t, n);
      }
      if CorrectAnswer(Declared(s.direct), Linkable(s.direct, n), before) {
        StillRightIff(s.direct, n, a, m, deps);
      }
    } else if Coherent(str, s) {
      AnswerIsFresh(str, t, n);
    }
  }

  // ----- a run that goes wrong

  lemma {:induction false} LeafReaches(g: Graph<Node>, a: Node, b: Node)
    requires Kids(g, a) == [] && Reaches(g, a, b)
    ensures b == a
  {
    var p :| |p| > 0 && Linked(g, p) && p[0] == a && p[|p| - 1] == b;
    assert |p| > 1 ==> Edge(g, p[0], p[1]);
  }

  lemma {:induction false} OneDependency(str: Naming, v: Node)
    requires v != 0
    ensures var direct := map[0 := [Dependency(v, Public)]];
            var a := FreshAnswer(str, direct, 0);
            a.Libs? && forall x :: x in a.order ==> x == v
  {
    var direct := map[0 := [Dependency(v, Public)]];
    var g, roots := Declared(direct), Linkable(direct, 0);
    OneTarget(Dependency(v, Public), Interface);
    assert roots == [v] && Kids(g, v) == [];
    LibdepsCorrect(str, direct, 0);
    forall x | ReachesFrom(g, roots, x) ensures x == v {
      LeafReaches(g, v, x);
    }
    forall c | ClosedWalk(g, c) ensures !ReachesFrom(g, roots, c[0]) {
      assert Edge(g, c[0], c[1]);
    }
  }

  lemma {:induction false} OneTarget(d: Dependency, hidden: Visibility)
    requires d.kind != hidden
    ensures Targets([d], hidden) == [d.target]
  {
    assert [d][1..] == [];
    assert Filter(Except(hidden), [d]) == [d];
  }

  lemma {:induction false} FirstAnswer(str: Naming, s1: Attributes, a: Answer, s2: Attributes)
    requires s1 == Attributes(map[0 := [Dependency(1, Public)]], map[], map[]) && Step(str, s1, Query(0, a), s2)
    ensures Coherent(str, s2) && s2.direct == s1.direct && 0 in s2.cached
    ensures a.Libs? && 2 !in a.order && a == FreshAnswer(str, s2.direct, 0)
  {
    QueryIsFresh(str, s1, 0, a, s2);
    OneDependency(str, 1);
  }

  lemma {:induction false} SecondAnswer(str: Naming, s2: Attributes, a: Answer, s3: Attributes, b: Answer,
                                        s4: Attributes)
    requires Coherent(str, s2) && 0 in s2.cached
    requires a.Libs? && 2 !in a.order && a == FreshAnswer(str, s2.direct, 0)
    requires Step(str, s2, Append(0, [Dependency(2, Public)]), s3) && Step(str, s3, Query(0, b), s4)
    ensures b == a && b != FreshAnswer(str, s3.direct, 0)
  {
    LibdepsCorrect(str, s2.direct, 0);
    QueryAfterDeclaration(str, s2, 0, a, s2, 0, [Dependency(2, Public)], s3, b, s4);
    OneTarget(Dependency(2, Public), Interface);
    assert 2 in Targets([Dependency(2, Public)], Interface);
    LibdepsCorrect(str, s3.direct, 0);
  }

  lemma {:induction false} FirstAppend(str: Naming, d: Dependency, s1: Attributes)
    requires Step(str, Attributes(map[], map[], map[]), Append(0, [d]), s1)
    ensures s1 == Attributes(map[0 := [d]], map[], map[])
  {
    assert [] + [d] == [d];
  }

  lemma {:induction false} SecondAppend(str: Naming, s2: Attributes, d: Dependency, e: Dependency, s3: Attributes)
    requires s2.direct == map[0 := [d]] && Step(str, s2, Append(0, [e]), s3)
    ensures s3.direct == map[0 := [d, e]]
  {
    assert [d] + [e] == [d, e];
  }

  /** Declare 1, ask, declare 2, ask again: whatever the names, the last answer is wrong. */
  lemma {:induction false} StaleRun(str: Naming, s1: Attributes, a: Answer, s2: Attributes, s3: Attributes,
                                    b: Answer, s4: Attributes)
    requires Step(str, Attributes(map[], map[], map[]), Append(0, [Dependency(1, Public)]), s1)
    requires Step(str, s1, Query(0, a), s2)
    requires Step(str, s2, Append(0, [Dependency(2, Public)]), s3)
    requires Step(str, s3, Query(0, b), s4)
    ensures s3.direct == map[0 := [Dependency(1, Public), Dependency(2, Public)]]
    ensures b == a && b != FreshAnswer(str, s3.direct, 0)
  {
    FirstAppend(str, Dependency(1, Public), s1);
    FirstAnswer(str, s1, a, s2);
    SecondAppend(str, s2, Dependency(1, Public), Dependency(2, Public), s3);
    SecondAnswer(str, s2, a, s3, b, s4);
  }

  /** Such a run on the resolver itself. */
  method AskTooEarly(str: Naming) returns (a: Answer, b: Answer, direct: map<Node, seq<Dependency>>)
    ensures direct == map[0 := [Dependency(1, Public), Dependency(2, Public)]]
    ensures b == a && b != FreshAnswer(str, direct, 0)
  {
    var libs := new Libraries(str);
    libs.Append(0, [Dependency(1, Public)]);
    ghost var s1 := libs.State();
    a := libs.GetLibdeps(0);
    ghost var s2 := libs.State();
    libs.Append(0, [Dependency(2, Public)]);
    ghost var s3 := libs.State();
    b := libs.GetLibdeps(0);
    StaleRun(str, s1, a, s2, s3, b, libs.State());
    direct := libs.direct;
  }
}
