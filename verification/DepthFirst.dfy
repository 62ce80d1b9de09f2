/** The depth-first search both graph walkers of the build tooling perform: the library
    dependency resolver and the deadlock detector are each proved to compute `VisitAll`. */
module DepthFirst {
  import opened Sorting
  import opened Digraph

  /** `walking` only grows: the nodes in it and not yet `marked` are the ones being visited. */
  datatype Walk<V(==)> = Walk(marked: set<V>, walking: set<V>, tsorted: seq<V>)

  datatype Outcome<V(==)> = Done(walk: Walk<V>) | CycleError(nodes: seq<V>)

  predicate Closed<V(==)>(e: seq<V>) {
    |e| > 1 && e[0] == e[|e| - 1]
  }

  /** What one frame does to the error that passes through it. */
  function Unwind<V(==)>(n: V, e: seq<V>): seq<V>
    requires |e| > 0
  {
    if Closed(e) then e else [n] + e
  }

  /** How a visit of `n` ends once its successors have been visited. */
  function Leave<V(==)>(n: V, o: Outcome<V>): Outcome<V>
    requires o.CycleError? ==> |o.nodes| > 0
  {
    match o
    case Done(w) => Done(Walk(w.marked + {n}, w.walking, w.tsorted + [n]))
    case CycleError(e) => CycleError(Unwind(n, e))
  }

  function Visit<V(==)>(g: Graph<V>, n: V, w: Walk<V>): (o: Outcome<V>)
    ensures o.Done? ==> w.walking <= o.walk.walking
    ensures o.CycleError? ==> |o.nodes| > 0
    decreases g.Keys - w.walking, 1
  {
    if n in w.marked then Done(w)
    else if n in w.walking then CycleError([n])
    else
      Leave(n, VisitAll(g, Kids(g, n), w.(walking := w.walking + {n})))
  }

  function VisitAll<V(==)>(g: Graph<V>, kids: seq<V>, w: Walk<V>): (o: Outcome<V>)
    ensures o.Done? ==> w.walking <= o.walk.walking
    ensures o.CycleError? ==> |o.nodes| > 0
    decreases g.Keys - w.walking, 2 * |kids|
  {
    if kids == [] then Done(w)
    else
      match Visit(g, kids[0], w)
      case Done(w1) => VisitAll(g, kids[1..], w1)
      case CycleError(e) => CycleError(e)
  }

  lemma {:induction false} VisitAllCons<V>(g: Graph<V>, k: V, kids: seq<V>, w: Walk<V>)
    ensures VisitAll(g, [k] + kids, w)
         == match Visit(g, k, w)
            case Done(w1) => VisitAll(g, kids, w1)
            case CycleError(e) => CycleError(e)
  {
    assert ([k] + kids)[1..] == kids;
  }

  function Explore<V(==)>(g: Graph<V>, roots: seq<V>): Outcome<V> {
    VisitAll(g, roots, Walk({}, {}, []))
  }

  // ----- what the search maintains

  /** The finished nodes, each listed once and after all of its successors. */
  ghost predicate Topological<V>(g: Graph<V>, w: Walk<V>) {
    && (forall v :: v in w.tsorted ==> v in w.marked)
    && (forall v :: v in w.marked ==> v in w.tsorted)
    && Distinct(w.tsorted)
    && forall i, k :: 0 <= i < |w.tsorted| && k in Kids(g, w.tsorted[i]) ==> k in w.tsorted[..i]
  }

  /** `walking - marked` is exactly the stack of visits in progress, which is a walk of the graph. */
  ghost predicate Consistent<V>(g: Graph<V>, w: Walk<V>, stack: seq<V>) {
    && w.marked <= w.walking
    && (forall v :: v in stack ==> v in w.walking && v !in w.marked)
    && (forall v :: v in w.walking && v !in w.marked ==> v in stack)
    && Distinct(stack) && Linked(g, stack)
    && Topological(g, w)
  }

  /** A walk from `n` that meets the nodes of `e` only at its end, which is the first of them. */
  ghost predicate EntersBy<V>(g: Graph<V>, n: V, e: seq<V>, p: seq<V>) {
    && |p| > 0 && |e| > 0 && Linked(g, p) && p[0] == n && p[|p| - 1] == e[0]
    && forall i :: 0 <= i < |p| - 1 ==> p[i] !in e
  }

  ghost predicate Enters<V(!new)>(g: Graph<V>, n: V, e: seq<V>) {
    exists p :: EntersBy(g, n, e, p)
  }

  ghost predicate Apart<V>(e: seq<V>, stack: seq<V>) {
    forall v :: v in e ==> v !in stack
  }

  /** The error on its way out of a visit of `n` made below `stack`. */
  ghost predicate Raised<V(!new)>(g: Graph<V>, stack: seq<V>, n: V, e: seq<V>) {
    && |e| > 0 && Linked(g, e)
    && if Closed(e) then SimpleCycle(g, e) && Reaches(g, n, e[0]) && Enters(g, n, e) && Apart(e, stack)
       else && e[0] == n && e[|e| - 1] in stack
            && Distinct(e[..|e| - 1]) && forall v :: v in e[..|e| - 1] ==> v !in stack
  }

  ghost predicate Follows<V>(g: Graph<V>, stack: seq<V>, n: V) {
    stack != [] ==> Edge(g, stack[|stack| - 1], n)
  }

  /** The finished part grew, by nodes that `n` reaches. */
  ghost predicate Grew<V(!new)>(g: Graph<V>, n: V, w: Walk<V>, w1: Walk<V>) {
    w.marked <= w1.marked && forall v :: v in w1.marked && v !in w.marked ==> Reaches(g, n, v)
  }

  lemma {:induction false} Push<V>(g: Graph<V>, n: V, w: Walk<V>, stack: seq<V>)
    requires Consistent(g, w, stack) && Follows(g, stack, n)
    requires n !in w.walking
    ensures Consistent(g, w.(walking := w.walking + {n}), stack + [n])
  {
    assert Linked(g, [n]);
    LinkedJoin(g, stack, [n]);
  }

  lemma {:induction false} Finish<V>(g: Graph<V>, n: V, w: Walk<V>, stack: seq<V>)
    requires Consistent(g, w, stack + [n])
    requires forall k :: k in Kids(g, n) ==> k in w.marked
    ensures Consistent(g, Walk(w.marked + {n}, w.walking, w.tsorted + [n]), stack)
  {
    LinkedPrefix(g, stack + [n], |stack|);
    assert (stack + [n])[..|stack|] == stack;
    assert (stack + [n])[|stack|] == n;
    var t := w.tsorted + [n];
    forall i, k | 0 <= i < |t| && k in Kids(g, t[i]) ensures k in t[..i] {
      if i < |w.tsorted| {
        assert k in w.tsorted[..i] && t[..i] == w.tsorted[..i];
      } else {
        assert t[..i] == w.tsorted;
      }
    }
    forall v | v in w.walking && v !in w.marked + {n} ensures v in stack {
      assert v in stack + [n];
    }
  }

  lemma {:induction false} EntersThrough<V(!new)>(g: Graph<V>, n: V, k: V, e: seq<V>)
    requires Enters(g, k, e) && Edge(g, n, k) && n !in e
    ensures Enters(g, n, e)
  {
    var p :| EntersBy(g, k, e, p);
    assert Linked(g, [n]);
    LinkedJoin(g, [n], p);
    assert EntersBy(g, n, e, [n] + p);
  }

  lemma {:induction false} EntersHere<V(!new)>(g: Graph<V>, n: V, e: seq<V>, stack: seq<V>)
    requires |e| > 0 && e[|e| - 1] == n && n !in stack && Apart(e[..|e| - 1], stack)
    ensures Enters(g, n, [n] + e) && Apart([n] + e, stack)
  {
    assert EntersBy(g, n, [n] + e, [n]);
    assert e == e[..|e| - 1] + [n];
  }

  /** One more frame: the error stays a walk, and closes exactly at the node that was met twice. */
  lemma {:induction false} RaisedThrough<V(!new)>(g: Graph<V>, n: V, k: V, stack: seq<V>, e: seq<V>)
    requires Raised(g, stack + [n], k, e) && Edge(g, n, k)
    requires n !in stack
    ensures Raised(g, stack, n, Unwind(n, e))
  {
    var f := Unwind(n, e);
    if Closed(e) {
      ReachesStep(g, n, k, e[0]);
      EntersThrough(g, n, k, e);
      forall v | v in e ensures v !in stack {
        assert v !in stack + [n];
      }
    } else {
      assert Linked(g, [n]);
      LinkedJoin(g, [n], e);
      assert f[..|f| - 1] == [n] + e[..|e| - 1];
      assert n in stack + [n];
      forall v | v in e[..|e| - 1] ensures v !in stack {
        assert v !in stack + [n];
      }
      ReachesSelf(g, n);
      if Closed(f) {
        EntersHere(g, n, e, stack);
      }
    }
  }

  lemma {:induction false} VisitSound<V(!new)>(g: Graph<V>, n: V, w: Walk<V>, stack: seq<V>)
    requires Consistent(g, w, stack) && Follows(g, stack, n)
    ensures match Visit(g, n, w)
            case Done(w1) => Consistent(g, w1, stack) && n in w1.marked && Grew(g, n, w, w1)
            case CycleError(e) => Raised(g, stack, n, e)
    decreases g.Keys - w.walking, 1
  {
    if n in w.marked {
    } else if n in w.walking {
      assert [n][..0] == [];
    } else {
      var w0 := w.(walking := w.walking + {n});
      Push(g, n, w, stack);
      VisitAllSound(g, Kids(g, n), w0, stack + [n]);
      match VisitAll(g, Kids(g, n), w0)
      case Done(w1) =>
        Finish(g, n, w1, stack);
        ReachesSelf(g, n);
        forall v | v in w1.marked && v !in w.marked ensures Reaches(g, n, v) {
          var k :| k in Kids(g, n) && Reaches(g, k, v);
          ReachesStep(g, n, k, v);
        }
      case CycleError(e) =>
        var k :| k in Kids(g, n) && Raised(g, stack + [n], k, e);
        RaisedThrough(g, n, k, stack, e);
    }
  }

  lemma {:induction false} VisitAllSound<V(!new)>(g: Graph<V>, kids: seq<V>, w: Walk<V>, stack: seq<V>)
    requires Consistent(g, w, stack)
    requires forall k :: k in kids ==> Follows(g, stack, k)
    ensures match VisitAll(g, kids, w)
            case Done(w1) =>
              && Consistent(g, w1, stack) && w.marked <= w1.marked
              && (forall k :: k in kids ==> k in w1.marked)
              && (forall v :: v in w1.marked && v !in w.marked ==> ReachesFrom(g, kids, v))
            case CycleError(e) => exists k :: k in kids && Raised(g, stack, k, e)
    decreases g.Keys - w.walking, 2 * |kids|
  {
    if kids != [] {
      VisitSound(g, kids[0], w, stack);
      match Visit(g, kids[0], w)
      case Done(w1) =>
        VisitAllSound(g, kids[1..], w1, stack);
        match VisitAll(g, kids[1..], w1) {
          case Done(w2) =>
            forall v | v in w2.marked && v !in w.marked ensures ReachesFrom(g, kids, v) {
              if v !in w1.marked {
                var r :| r in kids[1..] && Reaches(g, r, v);
                assert r in kids;
              } else {
                assert kids[0] in kids;
              }
            }
          case CycleError(e) =>
            var k :| k in kids[1..] && Raised(g, stack, k, e);
            assert k in kids;
        }
      case CycleError(e) =>
        assert kids[0] in kids;
    }
  }

  // ----- what a finished search means

  /** Every list in which each node follows its successors lists no node of a closed walk. */
  lemma {:induction false} WalkDescends<V>(g: Graph<V>, w: Walk<V>, p: seq<V>, i: nat)
    requires Topological(g, w) && |p| > 0 && Linked(g, p)
    requires i < |w.tsorted| && w.tsorted[i] == p[0]
    ensures exists j :: 0 <= j <= i && w.tsorted[j] == p[|p| - 1] && (|p| > 1 ==> j < i)
    decreases |p|
  {
    if |p| > 1 {
      assert Edge(g, p[0], p[1]);
      assert p[1] in w.tsorted[..i];
      var j :| 0 <= j < i && w.tsorted[j] == p[1];
      LinkedPrefix(g, p, 1);
      WalkDescends(g, w, p[1..], j);
    }
  }

  lemma {:induction false} MarkedClosed<V(!new)>(g: Graph<V>, w: Walk<V>, a: V, b: V)
    requires Topological(g, w) && a in w.marked && Reaches(g, a, b)
    ensures b in w.marked
  {
    var p :| |p| > 0 && Linked(g, p) && p[0] == a && p[|p| - 1] == b;
    var i :| 0 <= i < |w.tsorted| && w.tsorted[i] == a;
    WalkDescends(g, w, p, i);
  }

  /** A topological list with the roots in it holds all they reach, and they reach no cycle. */
  lemma {:induction false} TopologicalCloses<V(!new)>(g: Graph<V>, roots: seq<V>, w: Walk<V>)
    requires Topological(g, w) && forall r :: r in roots ==> r in w.marked
    ensures forall v :: ReachesFrom(g, roots, v) ==> v in w.tsorted
    ensures !CyclicFrom(g, roots)
  {
    forall v | ReachesFrom(g, roots, v) ensures v in w.tsorted {
      var r :| r in roots && Reaches(g, r, v);
      MarkedClosed(g, w, r, v);
    }
    forall c | ClosedWalk(g, c) && ReachesFrom(g, roots, c[0]) ensures false {
      var i :| 0 <= i < |w.tsorted| && w.tsorted[i] == c[0];
      WalkDescends(g, w, c, i);
    }
  }

  /** The search ends with the nodes its roots reach in order, or with a cycle they reach, and
      it reports a cycle exactly when there is one. */
  lemma {:induction false} ExploreCorrect<V(!new)>(g: Graph<V>, roots: seq<V>)
    ensures match Explore(g, roots)
            case Done(w) =>
              && Topological(g, w)
              && (forall v :: v in w.tsorted <==> ReachesFrom(g, roots, v))
            case CycleError(e) => SimpleCycle(g, e) && ReachesFrom(g, roots, e[0])
    ensures Explore(g, roots).CycleError? <==> CyclicFrom(g, roots)
  {
    var w0: Walk<V> := Walk({}, {}, []);
    VisitAllSound(g, roots, w0, []);
    match Explore(g, roots)
    case Done(w) => TopologicalCloses(g, roots, w);
    case CycleError(e) =>
      var r :| r in roots && Raised(g, [], r, e);
      assert e[|e| - 1] !in [];
  }

  // ----- the search only looks at the nodes it walks

  lemma {:induction false} VisitLocal<V(!new)>(g: Graph<V>, h: Graph<V>, n: V, w: Walk<V>)
    requires Visit(g, n, w).Done? && forall v :: v in Visit(g, n, w).walk.walking ==> Kids(g, v) == Kids(h, v)
    ensures Visit(h, n, w) == Visit(g, n, w)
    decreases g.Keys - w.walking, 1
  {
    if n !in w.marked && n !in w.walking {
      VisitAllLocal(g, h, Kids(g, n), w.(walking := w.walking + {n}));
    }
  }

  lemma {:induction false} VisitAllLocal<V(!new)>(g: Graph<V>, h: Graph<V>, kids: seq<V>, w: Walk<V>)
    requires VisitAll(g, kids, w).Done? && forall v :: v in VisitAll(g, kids, w).walk.walking ==> Kids(g, v) == Kids(h, v)
    ensures VisitAll(h, kids, w) == VisitAll(g, kids, w)
    decreases g.Keys - w.walking, 2 * |kids|
  {
    if kids != [] {
      VisitLocal(g, h, kids[0], w);
      VisitAllLocal(g, h, kids[1..], Visit(g, kids[0], w).walk);
    }
  }

  lemma {:induction false} WalkedIsListed<V>(g: Graph<V>, w: Walk<V>)
    requires Consistent(g, w, [])
    ensures forall v :: v in w.walking ==> v in w.tsorted
  {
  }

  /** A search that succeeds does not depend on the successors of nodes it did not list. */
  lemma {:induction false} ExploreLocal<V(!new)>(g: Graph<V>, h: Graph<V>, roots: seq<V>)
    requires Explore(g, roots).Done? && forall v :: v in Explore(g, roots).walk.tsorted ==> Kids(g, v) == Kids(h, v)
    ensures Explore(h, roots) == Explore(g, roots)
  {
    var w: Walk<V> := Walk({}, {}, []);
    VisitAllSound(g, roots, w, []);
    WalkedIsListed(g, Explore(g, roots).walk);
    VisitAllLocal(g, h, roots, w);
  }

  // ----- nodes without edges

  ghost predicate SameApartFrom<V>(w: Walk<V>, v: Walk<V>, bare: set<V>) {
    && v.marked == w.marked - bare && v.walking == w.walking - bare
    && (forall k :: k in bare && k in w.walking ==> k in w.marked)
  }

  ghost predicate SameOutcome<V>(o: Outcome<V>, p: Outcome<V>, bare: set<V>) {
    match o
    case Done(w) => p.Done? && SameApartFrom(w, p.walk, bare)
    case CycleError(_) => o == p
  }

  /** `bare` holds nodes that no edge of `g` touches; `h` may lack them. */
  ghost predicate Untouched<V(!new)>(g: Graph<V>, h: Graph<V>, bare: set<V>) {
    && (forall k :: Kids(g, k) == Kids(h, k))
    && (forall k :: k in bare ==> Kids(g, k) == [])
    && (forall k, m :: m in Kids(g, k) ==> m !in bare)
  }

  lemma {:induction false} VisitApart<V(!new)>(g: Graph<V>, h: Graph<V>, n: V, w: Walk<V>, v: Walk<V>, bare: set<V>)
    requires Untouched(g, h, bare) && n !in bare && SameApartFrom(w, v, bare)
    ensures SameOutcome(Visit(g, n, w), Visit(h, n, v), bare)
    decreases g.Keys - w.walking, 1
  {
    if n !in w.marked && n !in w.walking {
      var w0, v0 := w.(walking := w.walking + {n}), v.(walking := v.walking + {n});
      VisitAllApart(g, h, Kids(g, n), Kids(h, n), w0, v0, bare);
    }
  }

  lemma {:induction false} BareVisit<V(!new)>(g: Graph<V>, h: Graph<V>, n: V, w: Walk<V>, v: Walk<V>, bare: set<V>)
    requires Untouched(g, h, bare) && n in bare && SameApartFrom(w, v, bare)
    ensures Visit(g, n, w).Done? && SameApartFrom(Visit(g, n, w).walk, v, bare)
  {
    assert VisitAll(g, Kids(g, n), w.(walking := w.walking + {n})) == Done(w.(walking := w.walking + {n}));
  }

  /** A search that skips the nodes no edge touches ends in the same way. */
  lemma {:induction false} VisitAllApart<V(!new)>(g: Graph<V>, h: Graph<V>, kids: seq<V>, kept: seq<V>,
                                                  w: Walk<V>, v: Walk<V>, bare: set<V>)
    requires Untouched(g, h, bare) && SameApartFrom(w, v, bare)
    requires ((forall k :: k in kids ==> k !in bare) && kept == kids) || kept == Filter(k => k !in bare, kids)
    ensures SameOutcome(VisitAll(g, kids, w), VisitAll(h, kept, v), bare)
    decreases g.Keys - w.walking, 2 * |kids|
  {
    if kids != [] {
      if kids[0] in bare {
        BareVisit(g, h, kids[0], w, v, bare);
        VisitAllApart(g, h, kids[1..], kept, Visit(g, kids[0], w).walk, v, bare);
      } else {
        VisitApart(g, h, kids[0], w, v, bare);
        if Visit(g, kids[0], w).Done? {
          VisitAllApart(g, h, kids[1..], kept[1..], Visit(g, kids[0], w).walk, Visit(h, kids[0], v).walk, bare);
        }
      }
    }
  }
}
