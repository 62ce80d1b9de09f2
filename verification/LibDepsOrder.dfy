/** In which order the resolver lists the nodes: among what is left open by the dependencies, names decide. */
module LibDepsOrder {
  import opened Sorting
  import opened Digraph
  import opened DepthFirst
  import opened SearchOrder
  import opened LibDeps

  ghost predicate NamesAscend(str: Naming, nodes: seq<Node>) {
    forall i, j :: 0 <= i < j < |nodes| ==> Alphabetical(str(nodes[i]), str(nodes[j]))
  }

  lemma {:induction false} TargetsAscend(str: Naming, ds: seq<Dependency>, hidden: Visibility)
    ensures NamesAscend(str, Targets(Sort(ByName(str), ds), hidden))
    ensures multiset(Targets(Sort(ByName(str), ds), hidden)) == multiset(Targets(ds, hidden))
  {
    var r := Sort(NodeByName(str), Targets(ds, hidden));
    TargetsOfSorted(str, ds, hidden);
    NameOrder(str);
    SortSorted(NodeByName(str), Targets(ds, hidden));
    forall i, j | 0 <= i < j < |r| ensures Alphabetical(str(r[i]), str(r[j])) {
      assert NodeByName(str)(r[i], r[j]);
      StringLeqMeaning(str(r[i]), str(r[j]));
    }
  }

  /** Without caches, what a walk follows from a node are its declared edges, by name. */
  lemma {:induction false} KidsAscend(str: Naming, direct: map<Node, seq<Dependency>>, v: Node)
    ensures var kids := Kids(Attributes(direct, map[], map[]).Below(str), v);
            NamesAscend(str, kids) && multiset(kids) == multiset(Kids(Declared(direct), v))
  {
    var s := Attributes(direct, map[], map[]);
    KidsAreTargets(s, str, v);
    TargetsAscend(str, s.Direct(v), Private);
    assert Kids(Declared(direct), v) == Targets(s.Direct(v), Private);
  }

  lemma {:induction false} SameReach(g: Graph<Node>, h: Graph<Node>, roots: seq<Node>, v: Node)
    requires forall a, b :: Edge(g, a, b) <==> Edge(h, a, b)
    ensures ReachesFrom(g, roots, v) <==> ReachesFrom(h, roots, v)
  {
    SameEdges(g, h);
  }

  /** The end of the list, `k` nodes long, is exactly what the given nodes reach. */
  ghost predicate EndIs(g: Graph<Node>, order: seq<Node>, k: nat, nodes: seq<Node>) {
    k <= |order| && forall v :: v in order[|order| - k..] <==> ReachesFrom(g, nodes, v)
  }

  lemma {:induction false} EndOfReverse(list: seq<Node>, k: nat, v: Node)
    requires k <= |list|
    ensures v in list[..k] <==> v in Reverse(list)[|list| - k..]
  {
    var order := Reverse(list);
    if v in list[..k] {
      var i :| 0 <= i < k && list[i] == v;
      assert order[|list| - k..][k - 1 - i] == v;
    }
    if v in order[|list| - k..] {
      var i :| 0 <= i < k && order[|list| - k..][i] == v;
      assert list[..k][k - 1 - i] == v;
    }
  }

  /** Taking the direct dependencies that are linked in the order of their names, the end of the list is
      what the first of them reach, for any number of them: whatever only a later name brings in is
      listed ahead. */
  lemma {:induction false} AnswerByName(str: Naming, direct: map<Node, seq<Dependency>>, n: Node, i: nat)
      returns (roots: seq<Node>, k: nat)
    requires FreshAnswer(str, direct, n).Libs? && i <= |Linkable(direct, n)|
    ensures NamesAscend(str, roots) && multiset(roots) == multiset(Linkable(direct, n)) && i <= |roots|
    ensures EndIs(Declared(direct), FreshAnswer(str, direct, n).order, k, roots[..i])
  {
    var s := Attributes(direct, map[], map[]);
    roots := ArrangedRoots(str, direct, n);
    k := EndOfAnswer(str, direct, n, i);
    SortingKeepsEdges(str, direct, n);
    SameEnd(s.Below(str), Declared(direct), FreshAnswer(str, direct, n).order, k, roots[..i]);
  }

  /** The direct dependencies that are linked, in the order of their names. */
  lemma {:induction false} ArrangedRoots(str: Naming, direct: map<Node, seq<Dependency>>,
                                         n: Node) returns (roots: seq<Node>)
    ensures roots == Attributes(direct, map[], map[]).Roots(str, n)
    ensures NamesAscend(str, roots) && multiset(roots) == multiset(Linkable(direct, n)) && |roots| == |Linkable(direct, n)|
  {
    var s := Attributes(direct, map[], map[]);
    roots := s.Roots(str, n);
    TargetsAscend(str, s.Direct(n), Interface);
    SameElements(roots, Linkable(direct, n));
  }

  lemma {:induction false} SameEnd(g: Graph<Node>, h: Graph<Node>, order: seq<Node>, k: nat, nodes: seq<Node>)
    requires (forall a, b :: Edge(g, a, b) <==> Edge(h, a, b)) && EndIs(g, order, k, nodes)
    ensures EndIs(h, order, k, nodes)
  {
    forall v ensures v in order[|order| - k..] <==> ReachesFrom(h, nodes, v) {
      SameReach(g, h, nodes, v);
    }
  }

  lemma {:induction false} EndOfAnswer(str: Naming, direct: map<Node, seq<Dependency>>, n: Node,
                                       i: nat) returns (k: nat)
    requires FreshAnswer(str, direct, n).Libs? && i <= |Attributes(direct, map[], map[]).Roots(str, n)|
    ensures var s := Attributes(direct, map[], map[]);
            EndIs(s.Below(str), FreshAnswer(str, direct, n).order, k, s.Roots(str, n)[..i])
  {
    var s := Attributes(direct, map[], map[]);
    var g, roots := s.Below(str), s.Roots(str, n);
    var list := Explore(g, roots).walk.tsorted;
    ExploreInTurn(g, roots);
    assert SomeThrough(g, list, 0, roots, i, |list|);
    k :| k <= |list| && Through(g, list, 0, roots, i, k);
    assert list[..0] == [];
    forall v ensures v in Reverse(list)[|list| - k..] <==> ReachesFrom(g, roots[..i], v) {
      EndOfReverse(list, k, v);
    }
  }

  lemma {:induction false} SameEntry(g: Graph<Node>, h: Graph<Node>, n: Node, e: seq<Node>)
    requires (forall a, b :: Edge(g, a, b) <==> Edge(h, a, b)) && Enters(g, n, e)
    ensures Enters(h, n, e)
  {
    var p :| EntersBy(g, n, e, p);
    SameEdges(g, h);
    assert EntersBy(h, n, e, p);
  }

  /** An error names a cycle that the first of these dependencies, by name, to reach any reaches, from
      the node on at which it is entered. */
  lemma {:induction false} ErrorByName(str: Naming, direct: map<Node, seq<Dependency>>, n: Node)
      returns (roots: seq<Node>, i: nat)
    requires FreshAnswer(str, direct, n).Cycle?
    ensures NamesAscend(str, roots) && multiset(roots) == multiset(Linkable(direct, n)) && i < |roots|
    ensures !CyclicFrom(Declared(direct), roots[..i])
    ensures Enters(Declared(direct), roots[i], FreshAnswer(str, direct, n).nodes)
  {
    var s := Attributes(direct, map[], map[]);
    var g := s.Below(str);
    roots := ArrangedRoots(str, direct, n);
    SortingKeepsEdges(str, direct, n);
    i := FirstRootFails(g, roots);
    SameCyclicFrom(g, roots[..i], Declared(direct), roots[..i]);
    SameEntry(g, Declared(direct), roots[i], FreshAnswer(str, direct, n).nodes);
  }
}
