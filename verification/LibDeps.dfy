/** The library dependency resolver: per-node attributes, their two caches, and the
    topologically sorted closure of a node's dependencies. */
module LibDeps {
  import opened Sorting
  import opened Digraph
  import opened DepthFirst

  /** The identity of a build node; its printed name is `str(node)`. */
  type Node = nat
  type Naming = Node -> string

  datatype Visibility = Public | Private | Interface
  datatype Dependency = Dependency(target: Node, kind: Visibility)

  function TargetOf(d: Dependency): Node { d.target }

  function Except(hidden: Visibility): Dependency -> bool {
    (d: Dependency) => d.kind != hidden
  }

  /** The targets of the dependencies that are not of the given kind, in order. */
  function Targets(ds: seq<Dependency>, hidden: Visibility): seq<Node> {
    Map(TargetOf, Filter(Except(hidden), ds))
  }

  function NodeByName(str: Naming): (Node, Node) -> bool {
    (a: Node, b: Node) => StringLeq(str(a), str(b))
  }

  function ByName(str: Naming): (Dependency, Dependency) -> bool {
    (a: Dependency, b: Dependency) => StringLeq(str(a.target), str(b.target))
  }

  /** The attributes the resolver keeps on the nodes: the declared dependencies and two caches. */
  datatype Attributes = Attributes(
    direct: map<Node, seq<Dependency>>,
    directSorted: map<Node, seq<Dependency>>,
    cached: map<Node, seq<Node>>)
  {
    function Direct(n: Node): seq<Dependency> {
      if n in direct then direct[n] else []
    }

    /** The sorted dependencies a walk sees; an empty cached list counts as no cached list. */
    function View(str: Naming, n: Node): seq<Dependency> {
      if n in directSorted && directSorted[n] != [] then directSorted[n]
      else Sort(ByName(str), Direct(n))
    }

    /** The edges followed below the node that is asked about. */
    function Below(str: Naming): Graph<Node> {
      map n | n in direct.Keys + directSorted.Keys && View(str, n) != [] :: Targets(View(str, n), Private)
    }

    /** The nodes a query of `n` starts from. */
    function Roots(str: Naming, n: Node): seq<Node> {
      Targets(View(str, n), Interface)
    }
  }

  datatype Answer = Libs(order: seq<Node>) | Cycle(nodes: seq<Node>)

  function Resolve(below: Graph<Node>, roots: seq<Node>): Answer {
    match Explore(below, roots)
    case Done(w) => Libs(Reverse(w.tsorted))
    case CycleError(e) => Cycle(e)
  }

  /** The answer computed from the declared dependencies alone. */
  function FreshAnswer(str: Naming, direct: map<Node, seq<Dependency>>, n: Node): Answer {
    var s := Attributes(direct, map[], map[]);
    Resolve(s.Below(str), s.Roots(str, n))
  }

  /** The names of the targets are in alphabetical order. */
  ghost predicate Ascending(str: Naming, ds: seq<Dependency>) {
    forall i, j :: 0 <= i < j < |ds| ==> Alphabetical(str(ds[i].target), str(ds[j].target))
  }

  lemma {:induction false} SortAscends(str: Naming, ds: seq<Dependency>)
    ensures Ascending(str, Sort(ByName(str), ds)) && multiset(Sort(ByName(str), ds)) == multiset(ds)
  {
    var r := Sort(ByName(str), ds);
    NameOrder(str);
    SortSorted(ByName(str), ds);
    forall i, j | 0 <= i < j < |r| ensures Alphabetical(str(r[i].target), str(r[j].target)) {
      assert ByName(str)(r[i], r[j]);
      StringLeqMeaning(str(r[i].target), str(r[j].target));
    }
  }

  // ----- the stateful resolver

  /** Only the sorted-list cache may differ, and it was filled with what a walk sees anyway. */
  ghost predicate Refreshed(str: Naming, s: Attributes, t: Attributes) {
    && t.direct == s.direct
    && s.directSorted.Keys <= t.directSorted.Keys
    && (forall n :: n in t.directSorted ==>
          (n in s.directSorted && t.directSorted[n] == s.directSorted[n]) || t.directSorted[n] == s.View(str, n))
  }

  lemma {:induction false} RefreshedView(str: Naming, s: Attributes, t: Attributes, n: Node)
    requires Refreshed(str, s, t)
    ensures t.View(str, n) == s.View(str, n)
  {
  }

  lemma {:induction false} BelowAt(str: Naming, s: Attributes, n: Node)
    ensures n in s.Below(str) <==> s.View(str, n) != []
    ensures n in s.Below(str) ==> s.Below(str)[n] == Targets(s.View(str, n), Private)
  {
    if n !in s.direct.Keys + s.directSorted.Keys {
      assert Sort(ByName(str), []) == [];
    }
  }

  /** In both states a walk follows the same edges out of a node. */
  ghost predicate SeenAlike(str: Naming, s: Attributes, t: Attributes, n: Node) {
    && Targets(s.View(str, n), Private) == Targets(t.View(str, n), Private)
    && (s.View(str, n) == [] <==> t.View(str, n) == [])
  }

  ghost predicate SameAt(g: Graph<Node>, h: Graph<Node>, n: Node) {
    (n in g <==> n in h) && (n in g ==> g[n] == h[n])
  }

  lemma {:induction false} SameBelowAt(str: Naming, s: Attributes, t: Attributes, n: Node)
    requires SeenAlike(str, s, t, n)
    ensures SameAt(s.Below(str), t.Below(str), n)
  {
    BelowAt(str, s, n);
    BelowAt(str, t, n);
  }

  lemma {:induction false} SameGraphs(g: Graph<Node>, h: Graph<Node>)
    requires forall n :: SameAt(g, h, n)
    ensures g == h
  {
    forall n ensures n in g <==> n in h {
      assert SameAt(g, h, n);
    }
    forall n | n in g ensures g[n] == h[n] {
      assert SameAt(g, h, n);
    }
    assert g.Keys == h.Keys;
  }

  lemma {:induction false} SameBelow(str: Naming, s: Attributes, t: Attributes)
    requires forall n :: SeenAlike(str, s, t, n)
    ensures s.Below(str) == t.Below(str)
  {
    forall n ensures SameAt(s.Below(str), t.Below(str), n) { SameBelowAt(str, s, t, n); }
    SameGraphs(s.Below(str), t.Below(str));
  }

  lemma {:induction false} RefreshedBelow(str: Naming, s: Attributes, t: Attributes)
    requires Refreshed(str, s, t)
    ensures t.Below(str) == s.Below(str)
  {
    forall n ensures SeenAlike(str, s, t, n) { RefreshedView(str, s, t, n); }
    SameBelow(str, s, t);
  }

  lemma {:induction false} RefreshedTransitive(str: Naming, s: Attributes, t: Attributes, u: Attributes)
    requires Refreshed(str, s, t) && Refreshed(str, t, u)
    ensures Refreshed(str, s, u)
  {
    forall n ensures t.View(str, n) == s.View(str, n) { RefreshedView(str, s, t, n); }
  }

  /** What is left of a loop over dependencies, from position `i` on. */
  ghost function Rest(g: Graph<Node>, ds: seq<Dependency>, hidden: Visibility, i: nat, w: Walk<Node>): Outcome<Node>
    requires i <= |ds|
  {
    VisitAll(g, Targets(ds[i..], hidden), w)
  }

  lemma {:induction false} RestStep(g: Graph<Node>, ds: seq<Dependency>, hidden: Visibility, i: nat, w: Walk<Node>)
    requires i < |ds|
    ensures Rest(g, ds, hidden, i, w)
         == if ds[i].kind == hidden then Rest(g, ds, hidden, i + 1, w)
            else match DepthFirst.Visit(g, ds[i].target, w)
                 case Done(w1) => Rest(g, ds, hidden, i + 1, w1)
                 case CycleError(e) => CycleError(e)
  {
    assert ds[i..][1..] == ds[i + 1..];
    var tail := Targets(ds[i + 1..], hidden);
    if ds[i].kind == hidden {
      assert Filter(Except(hidden), ds[i..]) == Filter(Except(hidden), ds[i + 1..]);
    } else {
      assert Targets(ds[i..], hidden) == [ds[i].target] + tail;
      VisitAllCons(g, ds[i].target, tail, w);
    }
  }

  lemma {:induction false} KidsAreTargets(s: Attributes, str: Naming, n: Node)
    ensures Kids(s.Below(str), n) == Targets(s.View(str, n), Private)
  {
    BelowAt(str, s, n);
  }

  datatype Exit = Returned | Raised(cycleNodes: seq<Node>)

  /** A call ended the way the search specification says. */
  ghost predicate Agrees(o: Outcome<Node>, exit: Exit, w: Walk<Node>) {
    match o
    case Done(w1) => exit == Returned && w == w1
    case CycleError(e) => exit == Exit.Raised(e)
  }

  /** The nodes a call finished have had their sorted list looked up. */
  ghost predicate Seen(before: seq<Node>, after: seq<Node>, directSorted: map<Node, seq<Dependency>>) {
    forall v :: v in after ==> v in before || v in directSorted
  }

  lemma {:induction false} SeenClose(before: seq<Node>, after: seq<Node>, n: Node, directSorted: map<Node,
                                     seq<Dependency>>)
    requires Seen(before, after, directSorted) && n in directSorted
    ensures Seen(before, after + [n], directSorted)
  {
  }

  /** The three collections one query hands down its recursion. */
  class Search {
    var marked: set<Node>
    var tsorted: seq<Node>
    var walking: set<Node>

    constructor ()
      ensures Contents() == Walk({}, {}, [])
    {
      marked, tsorted, walking := {}, [], {};
    }

    ghost function Contents(): Walk<Node>
      reads this
    {
      Walk(marked, walking, tsorted)
    }

    /** The end of a visit: the node is finished, or a passing error is extended by it unless the
        error's ends have already met. */
    method Close(n: Node, exit: Exit, ghost below: Outcome<Node>) returns (exit': Exit)
      requires Agrees(below, exit, Contents()) && (below.CycleError? ==> |below.nodes| > 0)
      modifies this
      ensures Agrees(Leave(n, below), exit', Contents())
      ensures exit'.Returned? ==> tsorted == old(tsorted) + [n]
    {
      exit' := exit;
      if exit.Returned? {
        marked := marked + {n};
        tsorted := tsorted + [n];
      } else if |exit.cycleNodes| == 1 || exit.cycleNodes[0] != exit.cycleNodes[|exit.cycleNodes| - 1] {
        exit' := Exit.Raised([n] + exit.cycleNodes);
      }
    }
  }

  class Libraries {
    const str: Naming
    var direct: map<Node, seq<Dependency>>
    var directSorted: map<Node, seq<Dependency>>
    var cached: map<Node, seq<Node>>

    constructor (str: Naming)
      ensures this.str == str && State() == Attributes(map[], map[], map[])
    {
      this.str := str;
      direct, directSorted, cached := map[], map[], map[];
    }

    ghost function State(): Attributes
      reads this
    {
      Attributes(direct, directSorted, cached)
    }

    /** Declares more dependencies of a node; the caches are left as they are. */
    method Append(node: Node, deps: seq<Dependency>)
      modifies `direct
      ensures Step(str, old(State()), Event.Append(node, deps), State())
    {
      if node !in direct {
        direct := direct[node := []];
      }
      direct := direct[node := direct[node] + deps];
    }

    method SortedDirect(node: Node) returns (r: seq<Dependency>)
      modifies `directSorted
      ensures r == old(State()).View(str, node)
      ensures !(node in old(directSorted) && r == old(directSorted)[node]) ==>
                Ascending(str, r) && multiset(r) == multiset(State().Direct(node))
      ensures Refreshed(str, old(State()), State()) && node in directSorted
    {
      if node in directSorted && directSorted[node] != [] {
        return directSorted[node];
      }
      var declared := if node in direct then direct[node] else [];
      r := Sort(ByName(str), declared);
      SortAscends(str, declared);
      directSorted := directSorted[node := r];
    }

    method Visit(n: Dependency, s: Search) returns (exit: Exit)
      modifies `directSorted, s
      ensures Refreshed(str, old(State()), State())
      ensures Agrees(DepthFirst.Visit(old(State().Below(str)), n.target, old(s.Contents())), exit, s.Contents())
      ensures exit.Returned? ==> Seen(old(s.tsorted), s.tsorted, directSorted)
      decreases State().Below(str).Keys - s.walking, 1
    {
      if n.target in s.marked {
        return Returned;
      }
      if n.target in s.walking {
        return Exit.Raised([n.target]);
      }
      s.walking := s.walking + {n.target};

      KidsAreTargets(State(), str, n.target);
      ghost var s0, below := State(), VisitAll(State().Below(str), Kids(State().Below(str), n.target), s.Contents());
      assert DepthFirst.Visit(State().Below(str), n.target, old(s.Contents())) == Leave(n.target, below);
      var kids := SortedDirect(n.target);
      RefreshedBelow(str, s0, State());
      BelowAt(str, s0, n.target);
      assert kids != [] ==> n.target in s0.Below(str).Keys;
      ghost var s1, t0 := State(), s.tsorted;
      exit := VisitEach(kids, Private, s);
      RefreshedTransitive(str, s0, s1, State());
      ghost var t1 := s.tsorted;
      exit := s.Close(n.target, exit, below);
      if exit.Returned? {
        SeenClose(t0, t1, n.target, directSorted);
      }
    }

    /** The loop over sorted dependencies that a visit and a query share. */
    method VisitEach(kids: seq<Dependency>, hidden: Visibility, s: Search) returns (exit: Exit)
      modifies `directSorted, s
      ensures Refreshed(str, old(State()), State())
      ensures Agrees(VisitAll(old(State().Below(str)), Targets(kids, hidden), old(s.Contents())), exit, s.Contents())
      ensures exit.Returned? ==> Seen(old(s.tsorted), s.tsorted, directSorted)
      decreases State().Below(str).Keys - s.walking, 2 * |kids|
    {
      ghost var s0, g, w0 := State(), State().Below(str), s.Contents();
      assert kids[0..] == kids;
      for i := 0 to |kids|
        invariant Refreshed(str, s0, State())
        invariant w0.walking <= s.walking && Seen(w0.tsorted, s.tsorted, directSorted)
        invariant Rest(g, kids, hidden, 0, w0) == Rest(g, kids, hidden, i, s.Contents())
      {
        RestStep(g, kids, hidden, i, s.Contents());
        if kids[i].kind != hidden {
          ghost var s1 := State();
          RefreshedBelow(str, s0, s1);
          assert g.Keys - s.walking <= g.Keys - w0.walking;
          exit := Visit(kids[i], s);
          RefreshedTransitive(str, s0, s1, State());
          if exit.Raised? {
            return;
          }
        }
      }
      return Returned;
    }

    method GetLibdeps(node: Node) returns (a: Answer)
      modifies `directSorted, `cached
      ensures Step(str, old(State()), Query(node, a), State())
    {
      if node in cached {
        return Libs(cached[node]);
      }
      var s := new Search();
      ghost var s0 := State();
      var kids := SortedDirect(node);
      RefreshedBelow(str, s0, State());
      ghost var s1 := State();
      var exit := VisitEach(kids, Interface, s);
      RefreshedTransitive(str, s0, s1, State());
      ghost var s2 := State();
      if exit.Raised? {
        QueryFailed(str, s0, node, exit.cycleNodes, s2);
        return Cycle(exit.cycleNodes);
      }
      QueryDone(str, s0, node, s.Contents(), s2);
      s.tsorted := Reverse(s.tsorted);
      cached := cached[node := s.tsorted];
      return Libs(s.tsorted);
    }
  }

  // ----- calls as steps

  datatype Event = Append(node: Node, deps: seq<Dependency>) | Query(node: Node, answer: Answer)

  /** One call on the resolver, from any state its caches may be in. A successful query has looked up
      the sorted lists of the node and of all it lists. */
  ghost predicate Step(str: Naming, s: Attributes, e: Event, t: Attributes) {
    match e
    case Append(n, deps) => t == s.(direct := s.direct[n := s.Direct(n) + deps])
    case Query(n, a) =>
      if n in s.cached then t == s && a == Libs(s.cached[n])
      else
        && Refreshed(str, s, t)
        && a == Resolve(s.Below(str), s.Roots(str, n))
        && t.cached == (if a.Libs? then s.cached[n := a.order] else s.cached)
        && (a.Libs? ==> n in t.directSorted && forall v :: v in a.order ==> v in t.directSorted)
  }

  lemma {:induction false} QueryFailed(str: Naming, s: Attributes, n: Node, e: seq<Node>, t: Attributes)
    requires n !in s.cached && Explore(s.Below(str), s.Roots(str, n)) == CycleError(e)
    requires Refreshed(str, s, t) && t.cached == s.cached
    ensures Step(str, s, Query(n, Cycle(e)), t)
  {
  }

  lemma {:induction false} QueryListed(str: Naming, s: Attributes, n: Node, order: seq<Node>, t: Attributes)
    requires n !in s.cached && Resolve(s.Below(str), s.Roots(str, n)) == Libs(order)
    requires Refreshed(str, s, t) && t.cached == s.cached[n := order]
    requires n in t.directSorted && forall v :: v in order ==> v in t.directSorted
    ensures Step(str, s, Query(n, Libs(order)), t)
  {
  }

  lemma {:induction false} CachedRefreshed(str: Naming, s: Attributes, t: Attributes, cached: map<Node, seq<Node>>)
    requires Refreshed(str, s, t)
    ensures Refreshed(str, s, t.(cached := cached))
  {
  }

  lemma {:induction false} QueryDone(str: Naming, s: Attributes, n: Node, w: Walk<Node>, t: Attributes)
    requires n !in s.cached && Explore(s.Below(str), s.Roots(str, n)) == Done(w)
    requires Refreshed(str, s, t) && t.cached == s.cached
    requires n in t.directSorted && Seen([], w.tsorted, t.directSorted)
    ensures var order := Reverse(w.tsorted);
            Step(str, s, Query(n, Libs(order)), t.(cached := t.cached[n := order]))
  {
    var order := Reverse(w.tsorted);
    ReverseElements(w.tsorted);
    CachedRefreshed(str, s, t, t.cached[n := order]);
    QueryListed(str, s, n, order, t.(cached := t.cached[n := order]));
  }

  // ----- what an answer means

  /** The declared edges that are not Private. */
  function Declared(direct: map<Node, seq<Dependency>>): Graph<Node> {
    map n | n in direct :: Targets(direct[n], Private)
  }

  /** The declared direct dependencies that are not Interface. */
  function Linkable(direct: map<Node, seq<Dependency>>, n: Node): seq<Node> {
    if n in direct then Targets(direct[n], Interface) else []
  }

  lemma {:induction false} TargetsMeaning(ds: seq<Dependency>, hidden: Visibility, v: Node)
    ensures v in Targets(ds, hidden) <==> exists d :: d in ds && d.target == v && d.kind != hidden
  {
    var kept := Filter(Except(hidden), ds);
    if v in Targets(ds, hidden) {
      var i :| 0 <= i < |kept| && Map(TargetOf, kept)[i] == v;
      assert kept[i] in kept;
    }
    if d :| d in ds && d.target == v && d.kind != hidden {
      assert d in kept;
      var i :| 0 <= i < |kept| && kept[i] == d;
      assert Map(TargetOf, kept)[i] == v;
    }
  }

  /** What the two are in terms of the declarations. */
  lemma {:induction false} DeclaredMeaning(direct: map<Node, seq<Dependency>>, n: Node, v: Node)
    ensures Edge(Declared(direct), n, v) <==>
            n in direct && exists d :: d in direct[n] && d.target == v && (d.kind.Public? || d.kind.Interface?)
    ensures v in Linkable(direct, n) <==>
            n in direct && exists d :: d in direct[n] && d.target == v && (d.kind.Public? || d.kind.Private?)
  {
    if n in direct {
      TargetsMeaning(direct[n], Private, v);
      TargetsMeaning(direct[n], Interface, v);
    }
  }

  lemma {:induction false} TargetsSameElements(a: seq<Dependency>, b: seq<Dependency>, hidden: Visibility)
    requires multiset(a) == multiset(b)
    ensures multiset(Targets(a, hidden)) == multiset(Targets(b, hidden))
    ensures forall v :: v in Targets(a, hidden) <==> v in Targets(b, hidden)
  {
    var x, y := multiset(Filter(Except(hidden), a)), multiset(Filter(Except(hidden), b));
    forall d ensures x[d] == y[d] {
      FilterMultiset(Except(hidden), a, d);
      FilterMultiset(Except(hidden), b, d);
    }
    assert x == y;
    MapMultiset(TargetOf, Filter(Except(hidden), a), Filter(Except(hidden), b));
    SameElements(Targets(a, hidden), Targets(b, hidden));
  }

  lemma {:induction false} SortingKeepsEdges(str: Naming, direct: map<Node, seq<Dependency>>, n: Node)
    ensures var s := Attributes(direct, map[], map[]);
            && (forall a, b :: Edge(s.Below(str), a, b) <==> Edge(Declared(direct), a, b))
            && (forall v :: v in s.Roots(str, n) <==> v in Linkable(direct, n))
  {
    var s := Attributes(direct, map[], map[]);
    assert Sort(ByName(str), []) == [];
    forall a, b ensures Edge(s.Below(str), a, b) <==> Edge(Declared(direct), a, b) {
      KidsAreTargets(s, str, a);
      TargetsSameElements(s.View(str, a), s.Direct(a), Private);
    }
    TargetsSameElements(s.View(str, n), s.Direct(n), Interface);
  }

  /** Reversed, a finished search lists every node ahead of its successors. */
  lemma {:induction false} ReversedTopological(g: Graph<Node>, w: Walk<Node>)
    requires Topological(g, w)
    ensures var order := Reverse(w.tsorted);
            && Distinct(order)
            && (forall v :: v in order <==> v in w.tsorted)
            && (forall i, j :: 0 <= i < |order| && 0 <= j < |order| && Edge(g, order[i], order[j]) ==> i < j)
  {
    var order := Reverse(w.tsorted);
    ReverseElements(w.tsorted);
    forall i, j | 0 <= i < |order| && 0 <= j < |order| && Edge(g, order[i], order[j]) ensures i < j {
      var p := |order| - 1 - i;
      assert w.tsorted[p] == order[i] && order[j] in w.tsorted[..p];
    }
  }

  ghost predicate CorrectAnswer(g: Graph<Node>, roots: seq<Node>, a: Answer) {
    match a
    case Libs(order) =>
      && Distinct(order)
      && (forall v :: v in order <==> ReachesFrom(g, roots, v))
      && (forall i, j :: 0 <= i < |order| && 0 <= j < |order| && Edge(g, order[i], order[j]) ==> i < j)
      && !CyclicFrom(g, roots)
    case Cycle(e) => SimpleCycle(g, e) && ReachesFrom(g, roots, e[0])
  }

  lemma {:induction false} ResolveCorrect(g: Graph<Node>, roots: seq<Node>)
    ensures CorrectAnswer(g, roots, Resolve(g, roots))
  {
    ExploreCorrect(g, roots);
    if Explore(g, roots).Done? {
      ReversedTopological(g, Explore(g, roots).walk);
    }
  }

  /** The resolver lists, each once and ahead of everything it depends on, exactly the nodes that
      some non-Interface direct dependency reaches over non-Private edges; it fails exactly when
      those nodes contain a cycle, and then names one. */
  lemma {:induction false} LibdepsCorrect(str: Naming, direct: map<Node, seq<Dependency>>, n: Node)
    ensures CorrectAnswer(Declared(direct), Linkable(direct, n), FreshAnswer(str, direct, n))
    ensures FreshAnswer(str, direct, n).Cycle? <==> CyclicFrom(Declared(direct), Linkable(direct, n))
  {
    var s := Attributes(direct, map[], map[]);
    SortingKeepsEdges(str, direct, n);
    ResolveCorrect(s.Below(str), s.Roots(str, n));
    SameAnswers(s.Below(str), s.Roots(str, n), Declared(direct), Linkable(direct, n), FreshAnswer(str, direct, n));
  }

  lemma {:induction false} SameAnswers(g: Graph<Node>, r: seq<Node>, h: Graph<Node>, s: seq<Node>, a: Answer)
    requires forall x, y :: Edge(g, x, y) <==> Edge(h, x, y)
    requires forall v :: v in r <==> v in s
    requires CorrectAnswer(g, r, a)
    ensures CorrectAnswer(h, s, a) && (a.Cycle? <==> CyclicFrom(h, s))
  {
    SameEdges(g, h);
    SameCyclicFrom(g, r, h, s);
  }

  lemma {:induction false} NameOrder(str: Naming)
    ensures TotalPreorder(ByName(str)) && TotalPreorder(NodeByName(str))
    ensures (forall m, n :: str(m) == str(n) ==> m == n) ==> Antisymmetric(NodeByName(str))
  {
    var leq, nodeLeq := ByName(str), NodeByName(str);
    forall x, y ensures leq(x, y) || leq(y, x) { StringLeqTotal(str(x.target), str(y.target)); }
    forall x, y ensures nodeLeq(x, y) || nodeLeq(y, x) { StringLeqTotal(str(x), str(y)); }
    forall x, y, z | leq(x, y) && leq(y, z) ensures leq(x, z) {
      StringLeqTransitive(str(x.target), str(y.target), str(z.target));
    }
    forall x, y, z | nodeLeq(x, y) && nodeLeq(y, z) ensures nodeLeq(x, z) {
      StringLeqTransitive(str(x), str(y), str(z));
    }
    forall x, y | nodeLeq(x, y) && nodeLeq(y, x) ensures str(x) == str(y) {
      StringLeqAntisymmetric(str(x), str(y));
    }
  }

  lemma {:induction false} TargetsOfSorted(str: Naming, ds: seq<Dependency>, hidden: Visibility)
    ensures Targets(Sort(ByName(str), ds), hidden) == Sort(NodeByName(str), Targets(ds, hidden))
  {
    NameOrder(str);
    FilterSort(ByName(str), Except(hidden), ds);
    MapSort(ByName(str), NodeByName(str), TargetOf, Filter(Except(hidden), ds));
  }

  lemma {:induction false} SortedTargetsAgree(str: Naming, a: seq<Dependency>, b: seq<Dependency>, hidden: Visibility)
    requires forall m, n :: str(m) == str(n) ==> m == n
    requires multiset(a) == multiset(b)
    ensures Targets(Sort(ByName(str), a), hidden) == Targets(Sort(ByName(str), b), hidden)
  {
    NameOrder(str);
    TargetsOfSorted(str, a, hidden);
    TargetsOfSorted(str, b, hidden);
    TargetsSameElements(a, b, hidden);
    SortAgrees(NodeByName(str), Targets(a, hidden), Targets(b, hidden));
  }

  /** Both attribute tables declare the same dependencies, each node's in any order. */
  ghost predicate Shuffled(direct: map<Node, seq<Dependency>>, shuffled: map<Node, seq<Dependency>>) {
    direct.Keys == shuffled.Keys && forall m :: m in direct ==> multiset(direct[m]) == multiset(shuffled[m])
  }

  lemma {:induction false} ShuffledView(str: Naming, s: Attributes, t: Attributes, n: Node, hidden: Visibility)
    requires forall m, k :: str(m) == str(k) ==> m == k
    requires Shuffled(s.direct, t.direct) && s.directSorted == t.directSorted == map[]
    ensures Targets(s.View(str, n), hidden) == Targets(t.View(str, n), hidden)
    ensures s.View(str, n) == [] <==> t.View(str, n) == []
  {
    SortedTargetsAgree(str, s.Direct(n), t.Direct(n), hidden);
    SameElements(s.View(str, n), t.View(str, n));
  }

  /** With distinct names, the order of declaration affects neither the list nor the error. */
  lemma {:induction false} DeclarationOrderIrrelevant(str: Naming, direct: map<Node, seq<Dependency>>,
                                   shuffled: map<Node, seq<Dependency>>, n: Node)
    requires forall m, k :: str(m) == str(k) ==> m == k
    requires Shuffled(direct, shuffled)
    ensures FreshAnswer(str, direct, n) == FreshAnswer(str, shuffled, n)
  {
    var s, t := Attributes(direct, map[], map[]), Attributes(shuffled, map[], map[]);
    forall m ensures SeenAlike(str, s, t, m) { ShuffledView(str, s, t, m, Private); }
    SameBelow(str, s, t);
    ShuffledView(str, s, t, n, Interface);
  }
}
