/** Finite directed graphs given by successor lists, with walks, reachability and cycles.
    A node without an entry has no successors. */
module Digraph {
  import opened Sorting

  type Graph<V(==)> = map<V, seq<V>>

  function Kids<V(==)>(g: Graph<V>, v: V): seq<V> {
    if v in g then g[v] else []
  }

  predicate Edge<V(==)>(g: Graph<V>, a: V, b: V) {
    b in Kids(g, a)
  }

  /** Consecutive nodes are joined by edges; the empty sequence and a single node qualify. */
  ghost predicate Linked<V>(g: Graph<V>, p: seq<V>) {
    forall i, j :: 0 <= i && j == i + 1 && j < |p| ==> Edge(g, p[i], p[j])
  }

  ghost predicate Reaches<V(!new)>(g: Graph<V>, a: V, b: V) {
    exists p :: |p| > 0 && Linked(g, p) && p[0] == a && p[|p| - 1] == b
  }

  ghost predicate ReachesFrom<V(!new)>(g: Graph<V>, roots: seq<V>, b: V) {
    exists r :: r in roots && Reaches(g, r, b)
  }

  ghost predicate ClosedWalk<V>(g: Graph<V>, c: seq<V>) {
    |c| >= 2 && Linked(g, c) && c[0] == c[|c| - 1]
  }

  /** A closed walk that repeats nothing but its end point. */
  ghost predicate SimpleCycle<V>(g: Graph<V>, c: seq<V>) {
    ClosedWalk(g, c) && Distinct(c[..|c| - 1])
  }

  /** Some closed walk can be reached from the given nodes. */
  ghost predicate CyclicFrom<V(!new)>(g: Graph<V>, roots: seq<V>) {
    exists c :: ClosedWalk(g, c) && ReachesFrom(g, roots, c[0])
  }

  ghost predicate Acyclic<V(!new)>(g: Graph<V>) {
    !exists c :: ClosedWalk(g, c)
  }

  lemma {:induction false} ReachesSelf<V(!new)>(g: Graph<V>, a: V)
    ensures Reaches(g, a, a)
  {
    assert Linked(g, [a]);
  }

  lemma {:induction false} ReachesStep<V(!new)>(g: Graph<V>, a: V, b: V, c: V)
    requires Edge(g, a, b) && Reaches(g, b, c)
    ensures Reaches(g, a, c)
  {
    var p :| |p| > 0 && Linked(g, p) && p[0] == b && p[|p| - 1] == c;
    var q := [a] + p;
    forall i, j | 0 <= i && j == i + 1 && j < |q| ensures Edge(g, q[i], q[j]) {
      if i > 0 {
        assert q[i] == p[i - 1] && q[j] == p[j - 1];
      }
    }
    assert |q| > 0 && Linked(g, q) && q[0] == a && q[|q| - 1] == c;
  }

  lemma {:induction false} LinkedPrefix<V>(g: Graph<V>, p: seq<V>, n: nat)
    requires Linked(g, p) && n <= |p|
    ensures Linked(g, p[..n]) && Linked(g, p[n..])
  {
    var q := p[n..];
    forall i, j | 0 <= i && j == i + 1 && j < |q| ensures Edge(g, q[i], q[j]) {
      assert q[i] == p[n + i] && q[j] == p[n + j];
    }
  }

  /** Walks join at an edge. */
  lemma {:induction false} LinkedJoin<V>(g: Graph<V>, p: seq<V>, q: seq<V>)
    requires Linked(g, p) && Linked(g, q)
    requires p != [] && q != [] ==> Edge(g, p[|p| - 1], q[0])
    ensures Linked(g, p + q)
  {
    var r := p + q;
    forall i, j | 0 <= i && j == i + 1 && j < |r| ensures Edge(g, r[i], r[j]) {
      if i >= |p| {
        assert r[i] == q[i - |p|] && r[j] == q[j - |p|];
      }
    }
  }

  /** Walks, reachability and cycles depend only on which edges there are. */
  lemma {:induction false} SameEdges<V(!new)>(g: Graph<V>, h: Graph<V>)
    requires forall a, b :: Edge(g, a, b) <==> Edge(h, a, b)
    ensures forall p :: Linked(g, p) <==> Linked(h, p)
    ensures forall a, b :: Reaches(g, a, b) <==> Reaches(h, a, b)
    ensures forall c :: SimpleCycle(g, c) <==> SimpleCycle(h, c)
    ensures Acyclic(g) <==> Acyclic(h)
  {
    forall p ensures Linked(g, p) <==> Linked(h, p) {}
    assert forall c :: ClosedWalk(g, c) <==> ClosedWalk(h, c);
  }

  lemma {:induction false} SameCyclicFrom<V(!new)>(g: Graph<V>, r: seq<V>, h: Graph<V>, s: seq<V>)
    requires forall a, b :: Edge(g, a, b) <==> Edge(h, a, b)
    requires forall v :: v in r <==> v in s
    ensures forall v :: ReachesFrom(g, r, v) <==> ReachesFrom(h, s, v)
    ensures CyclicFrom(g, r) <==> CyclicFrom(h, s)
  {
    SameEdges(g, h);
    forall v ensures ReachesFrom(g, r, v) <==> ReachesFrom(h, s, v) {}
    forall c ensures ClosedWalk(g, c) <==> ClosedWalk(h, c) {}
  }
}
