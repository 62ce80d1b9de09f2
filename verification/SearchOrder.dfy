/** The order in which a finished search lists the nodes: roots, and the successors of each node, are
    finished one after the other. */
module SearchOrder {
  import opened Sorting
  import opened Digraph
  import opened DepthFirst

  /** Besides what was listed at `q`, the list up to `k` holds exactly what the first `i` of the nodes reach. */
  ghost predicate Through<V(!new)>(g: Graph<V>, list: seq<V>, q: nat, nodes: seq<V>, i: nat, k: nat) {
    && q <= k <= |list| && i <= |nodes|
    && forall v :: v in list[..k] <==> v in list[..q] || ReachesFrom(g, nodes[..i], v)
  }

  ghost predicate SomeThrough<V(!new)>(g: Graph<V>, list: seq<V>, q: nat, nodes: seq<V>, i: nat, p: nat) {
    exists k: nat :: k <= p && Through(g, list, q, nodes, i, k)
  }

  /** The nodes are finished in turn, from position `q` on and by position `p`. */
  ghost predicate InTurn<V(!new)>(g: Graph<V>, list: seq<V>, q: nat, nodes: seq<V>, p: nat) {
    && Through(g, list, q, nodes, |nodes|, p)
    && forall i: nat :: i <= |nodes| ==> SomeThrough(g, list, q, nodes, i, p)
  }

  /** A node is listed right after its successors, which are finished in turn. */
  ghost predicate ListedInTurn<V(!new)>(g: Graph<V>, list: seq<V>, p: nat)
    requires p < |list|
  {
    exists q: nat :: InTurn(g, list, q, Kids(g, list[p]), p)
  }

  lemma {:induction false} VisitAllAppend<V(!new)>(g: Graph<V>, a: seq<V>, b: seq<V>, w: Walk<V>)
    ensures VisitAll(g, a + b, w)
         == match VisitAll(g, a, w)
            case Done(w1) => VisitAll(g, b, w1)
            case CycleError(e) => CycleError(e)
    decreases |a|
  {
    if a == [] {
      assert a + b == b;
    } else {
      VisitAllCons(g, a[0], a[1..], w);
      VisitAllCons(g, a[0], a[1..] + b, w);
      assert a == [a[0]] + a[1..] && a + b == [a[0]] + (a[1..] + b);
      if Visit(g, a[0], w).Done? {
        VisitAllAppend(g, a[1..], b, Visit(g, a[0], w).walk);
      }
    }
  }

  // ----- searches extend the list

  lemma {:induction false} PrefixOfLonger<V>(a: seq<V>, b: seq<V>, c: seq<V>)
    requires a <= b && b <= c
    ensures a <= c
  {
  }

  lemma {:induction false} VisitExtends<V(!new)>(g: Graph<V>, n: V, w: Walk<V>)
    requires Visit(g, n, w).Done?
    ensures w.tsorted <= Visit(g, n, w).walk.tsorted
    decreases g.Keys - w.walking, 1
  {
    if n !in w.marked && n !in w.walking {
      VisitAllExtends(g, Kids(g, n), w.(walking := w.walking + {n}));
    }
  }

  lemma {:induction false} VisitAllExtends<V(!new)>(g: Graph<V>, kids: seq<V>, w: Walk<V>)
    requires VisitAll(g, kids, w).Done?
    ensures w.tsorted <= VisitAll(g, kids, w).walk.tsorted
    decreases g.Keys - w.walking, 2 * |kids|
  {
    if kids != [] {
      var w1 := Visit(g, kids[0], w).walk;
      VisitExtends(g, kids[0], w);
      VisitAllExtends(g, kids[1..], w1);
      PrefixOfLonger(w.tsorted, w1.tsorted, VisitAll(g, kids, w).walk.tsorted);
    }
  }

  // ----- in turn

  lemma {:induction false} ThroughLonger<V(!new)>(g: Graph<V>, list: seq<V>, longer: seq<V>, q: nat, nodes: seq<V>,
                                           i: nat, k: nat)
    requires list <= longer && Through(g, list, q, nodes, i, k)
    ensures Through(g, longer, q, nodes, i, k)
  {
    assert longer[..k] == list[..k] && longer[..q] == list[..q];
  }

  lemma {:induction false} InTurnLonger<V(!new)>(g: Graph<V>, list: seq<V>, longer: seq<V>, q: nat, nodes: seq<V>,
                                          p: nat)
    requires list <= longer && InTurn(g, list, q, nodes, p)
    ensures InTurn(g, longer, q, nodes, p)
  {
    ThroughLonger(g, list, longer, q, nodes, |nodes|, p);
    forall i: nat | i <= |nodes| ensures SomeThrough(g, longer, q, nodes, i, p) {
      assert SomeThrough(g, list, q, nodes, i, p);
      var k: nat :| k <= p && Through(g, list, q, nodes, i, k);
      ThroughLonger(g, list, longer, q, nodes, i, k);
    }
  }

  /** What a finished search of some nodes has added to the list. */
  lemma {:induction false} SearchAdds<V(!new)>(g: Graph<V>, nodes: seq<V>, w: Walk<V>, stack: seq<V>)
    requires Consistent(g, w, stack) && (forall k :: k in nodes ==> Follows(g, stack, k))
    requires VisitAll(g, nodes, w).Done?
    ensures var list := VisitAll(g, nodes, w).walk.tsorted;
            forall v :: v in list <==> v in w.tsorted || ReachesFrom(g, nodes, v)
  {
    var w1 := VisitAll(g, nodes, w).walk;
    VisitAllSound(g, nodes, w, stack);
    assert forall v :: (v in w.tsorted <==> v in w.marked) && (v in w1.tsorted <==> v in w1.marked);
    forall v | ReachesFrom(g, nodes, v) ensures v in w1.marked {
      var r :| r in nodes && Reaches(g, r, v);
      MarkedClosed(g, w1, r, v);
    }
  }

  lemma {:induction false} SearchThrough<V(!new)>(g: Graph<V>, nodes: seq<V>, w: Walk<V>, stack: seq<V>,
                                           i: nat) returns (k: nat)
    requires Consistent(g, w, stack) && (forall k :: k in nodes ==> Follows(g, stack, k))
    requires VisitAll(g, nodes, w).Done? && i <= |nodes|
    ensures k <= |VisitAll(g, nodes, w).walk.tsorted|
    ensures Through(g, VisitAll(g, nodes, w).walk.tsorted, |w.tsorted|, nodes, i, k)
  {
    var list := VisitAll(g, nodes, w).walk.tsorted;
    assert nodes == nodes[..i] + nodes[i..];
    VisitAllAppend(g, nodes[..i], nodes[i..], w);
    var part := VisitAll(g, nodes[..i], w).walk;
    VisitAllExtends(g, nodes[..i], w);
    VisitAllExtends(g, nodes[i..], part);
    SearchAdds(g, nodes[..i], w, stack);
    k := |part.tsorted|;
    PrefixOfLonger(w.tsorted, part.tsorted, list);
    assert list[..k] == part.tsorted && list[..|w.tsorted|] == w.tsorted;
  }

  lemma {:induction false} SearchInTurn<V(!new)>(g: Graph<V>, nodes: seq<V>, w: Walk<V>, stack: seq<V>)
    requires Consistent(g, w, stack) && (forall k :: k in nodes ==> Follows(g, stack, k))
    requires VisitAll(g, nodes, w).Done?
    ensures var list := VisitAll(g, nodes, w).walk.tsorted; InTurn(g, list, |w.tsorted|, nodes, |list|)
  {
    var list := VisitAll(g, nodes, w).walk.tsorted;
    forall i: nat | i <= |nodes| ensures SomeThrough(g, list, |w.tsorted|, nodes, i, |list|) {
      var k := SearchThrough(g, nodes, w, stack, i);
    }
    SearchAdds(g, nodes, w, stack);
    VisitAllExtends(g, nodes, w);
    assert nodes[..|nodes|] == nodes && list[..|list|] == list && list[..|w.tsorted|] == w.tsorted;
  }

  /** The nodes added to a list are each listed in turn. */
  ghost predicate AddedInTurn<V(!new)>(g: Graph<V>, list: seq<V>, from: nat) {
    forall p :: from <= p < |list| ==> ListedInTurn(g, list, p)
  }

  lemma {:induction false} AddedLonger<V(!new)>(g: Graph<V>, list: seq<V>, longer: seq<V>, from: nat, p: nat)
    requires list <= longer && AddedInTurn(g, list, from) && from <= p < |list|
    ensures ListedInTurn(g, longer, p)
  {
    assert ListedInTurn(g, list, p);
    var q: nat :| InTurn(g, list, q, Kids(g, list[p]), p);
    InTurnLonger(g, list, longer, q, Kids(g, list[p]), p);
  }

  lemma {:induction false} VisitInTurn<V(!new)>(g: Graph<V>, n: V, w: Walk<V>, stack: seq<V>)
    requires Consistent(g, w, stack) && Follows(g, stack, n) && Visit(g, n, w).Done?
    ensures AddedInTurn(g, Visit(g, n, w).walk.tsorted, |w.tsorted|)
    decreases g.Keys - w.walking, 1
  {
    if n !in w.marked && n !in w.walking {
      var w0 := w.(walking := w.walking + {n});
      var w1 := VisitAll(g, Kids(g, n), w0).walk;
      var list := w1.tsorted + [n];
      Push(g, n, w, stack);
      VisitAllInTurn(g, Kids(g, n), w0, stack + [n]);
      SearchInTurn(g, Kids(g, n), w0, stack + [n]);
      InTurnLonger(g, w1.tsorted, list, |w.tsorted|, Kids(g, n), |w1.tsorted|);
      forall p | |w.tsorted| <= p < |list| ensures ListedInTurn(g, list, p) {
        if p < |w1.tsorted| {
          AddedLonger(g, w1.tsorted, list, |w.tsorted|, p);
        } else {
          assert list[p] == n;
        }
      }
    }
  }

  lemma {:induction false} VisitAllInTurn<V(!new)>(g: Graph<V>, kids: seq<V>, w: Walk<V>, stack: seq<V>)
    requires Consistent(g, w, stack) && (forall k :: k in kids ==> Follows(g, stack, k))
    requires VisitAll(g, kids, w).Done?
    ensures AddedInTurn(g, VisitAll(g, kids, w).walk.tsorted, |w.tsorted|)
    decreases g.Keys - w.walking, 2 * |kids|
  {
    if kids != [] {
      var w1, list := Visit(g, kids[0], w).walk, VisitAll(g, kids, w).walk.tsorted;
      VisitSound(g, kids[0], w, stack);
      VisitInTurn(g, kids[0], w, stack);
      VisitAllInTurn(g, kids[1..], w1, stack);
      VisitAllExtends(g, kids[1..], w1);
      forall p | |w.tsorted| <= p < |list| ensures ListedInTurn(g, list, p) {
        if p < |w1.tsorted| {
          AddedLonger(g, w1.tsorted, list, |w.tsorted|, p);
        }
      }
    }
  }

  /** A finished search lists what its roots reach, root after root, and every node right after its
      successors, successor after successor. */
  lemma {:induction false} ExploreInTurn<V(!new)>(g: Graph<V>, roots: seq<V>)
    requires Explore(g, roots).Done?
    ensures var list := Explore(g, roots).walk.tsorted;
            InTurn(g, list, 0, roots, |list|) && AddedInTurn(g, list, 0)
  {
    var w: Walk<V> := Walk({}, {}, []);
    SearchInTurn(g, roots, w, []);
    VisitAllInTurn(g, roots, w, []);
  }

  // ----- which cycle is met

  lemma {:induction false} FailsAt<V(!new)>(g: Graph<V>, roots: seq<V>, w: Walk<V>) returns (i: nat)
    requires VisitAll(g, roots, w).CycleError?
    ensures i < |roots| && VisitAll(g, roots[..i], w).Done?
    ensures VisitAll(g, roots, w) == Visit(g, roots[i], VisitAll(g, roots[..i], w).walk)
    decreases |roots|
  {
    match Visit(g, roots[0], w)
    case CycleError(e) =>
      i := 0;
      assert roots[..0] == [];
    case Done(w1) =>
      var j := FailsAt(g, roots[1..], w1);
      i := j + 1;
      VisitAllCons(g, roots[0], roots[1..][..j], w);
      assert roots[..i] == [roots[0]] + roots[1..][..j];
  }

  /** A failing search names a cycle that its first root to reach any reaches, from the node on at which
      it is entered. */
  lemma {:induction false} FirstRootFails<V(!new)>(g: Graph<V>, roots: seq<V>) returns (i: nat)
    requires Explore(g, roots).CycleError?
    ensures i < |roots| && !CyclicFrom(g, roots[..i]) && Enters(g, roots[i], Explore(g, roots).nodes)
  {
    var w: Walk<V> := Walk({}, {}, []);
    i := FailsAt(g, roots, w);
    ExploreCorrect(g, roots[..i]);
    VisitAllSound(g, roots[..i], w, []);
    VisitSound(g, roots[i], VisitAll(g, roots[..i], w).walk, []);
  }
}
