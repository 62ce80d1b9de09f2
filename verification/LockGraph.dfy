/** The waits-for graph of the debugger extension: threads wait on locks, locks are held by
    threads or idle transactions, and a cycle is a deadlock. */
module LockGraph {
  import opened Wrappers
  import opened Sorting
  import opened Digraph
  import opened DepthFirst

  datatype Vertex =
    | Thread(threadId: int, lwpid: int, name: string)
    | IdleTransaction(lockerId: int)
    | Lock(addr: int, resource: string)

  /** The dictionary key of a vertex; two locks at one address are the same vertex. */
  datatype Key = ThreadKey(threadId: int) | LockerKey(lockerId: int) | LockKey(addr: int)

  function KeyOf(v: Vertex): Key {
    match v
    case Thread(id, _, _) => ThreadKey(id)
    case IdleTransaction(id) => LockerKey(id)
    case Lock(addr, _) => LockKey(addr)
  }

  /** Threads are told apart by their id and idle transactions by their locker, ... */
  predicate SameAgent(u: Vertex, v: Vertex) {
    || (u.Thread? && v.Thread? && u.threadId == v.threadId)
    || (u.IdleTransaction? && v.IdleTransaction? && u.lockerId == v.lockerId)
  }

  /** ... and locks by their address. */
  predicate SameLock(u: Vertex, v: Vertex) {
    u.Lock? && v.Lock? && u.addr == v.addr
  }

  predicate SameVertex(u: Vertex, v: Vertex) {
    SameAgent(u, v) || SameLock(u, v)
  }

  /** Keys identify vertices. */
  lemma {:induction false} KeyLaw(u: Vertex, v: Vertex)
    ensures KeyOf(u) == KeyOf(v) <==> SameVertex(u, v)
  {
  }

  datatype Entry = Entry(node: Vertex, nextNodes: seq<Key>)

  /** A dictionary with its insertion order. */
  datatype Contents = Contents(order: seq<Key>, nodes: map<Key, Entry>) {
    function Succ(): Graph<Key> {
      map k | k in nodes :: nodes[k].nextNodes
    }

    ghost predicate Valid() {
      && Distinct(order)
      && (forall k :: k in order <==> k in nodes)
      && (forall k :: k in nodes ==> KeyOf(nodes[k].node) == k)
      && (forall k, m :: k in nodes && m in nodes[k].nextNodes ==> m in nodes)
    }

    function WithNode(v: Vertex): Contents {
      if KeyOf(v) in nodes then this
      else Contents(order + [KeyOf(v)], nodes[KeyOf(v) := Entry(v, [])])
    }

    /** The successor is appended unless it is there already. */
    function WithLink(from: Key, to: Key): Contents
      requires from in nodes
    {
      var f := nodes[from];
      if to in f.nextNodes then this
      else this.(nodes := nodes[from := f.(nextNodes := f.nextNodes + [to])])
    }

    function WithEdge(from: Vertex, to: Vertex): Contents {
      WithNode(from).WithNode(to).WithLink(KeyOf(from), KeyOf(to))
    }

    ghost predicate HasEdge(k: Key) {
      Kids(Succ(), k) != [] || exists a :: Edge(Succ(), a, k)
    }
  }

  /** The visited set and the path of a search are those of the walk. */
  ghost predicate OnTrail(visited: set<Key>, path: seq<Key>, w: Walk<Key>) {
    && visited == w.walking && w.marked <= w.walking && Distinct(path)
    && (forall k :: k in path <==> k in w.walking && k !in w.marked)
  }

  lemma {:induction false} TrailPush(visited: set<Key>, path: seq<Key>, w: Walk<Key>, key: Key)
    requires OnTrail(visited, path, w) && key !in visited
    ensures OnTrail(visited + {key}, path + [key], w.(walking := w.walking + {key}))
  {
    assert key !in path;
  }

  lemma {:induction false} TrailPop(visited: set<Key>, stack: seq<Key>, key: Key, w: Walk<Key>)
    requires OnTrail(visited, stack + [key], w)
    ensures OnTrail(visited, stack, Leave(key, Done(w)).walk)
  {
    var path := stack + [key];
    assert path[|stack|] == key;
    assert forall k :: k in path <==> k in stack || k == key;
    forall i, j | 0 <= i < j < |stack| ensures stack[i] != stack[j] {
      assert path[i] == stack[i] && path[j] == stack[j];
    }
    forall i | 0 <= i < |stack| ensures stack[i] != key {
      assert path[i] == stack[i];
    }
  }

  lemma {:induction false} NextKid(g: Graph<Key>, kids: seq<Key>, i: nat, w: Walk<Key>)
    requires i < |kids|
    ensures VisitAll(g, kids[i..], w) == match Visit(g, kids[i], w)
                                         case Done(w1) => VisitAll(g, kids[i + 1..], w1)
                                         case CycleError(e) => CycleError(e)
  {
    assert kids[i..] == [kids[i]] + kids[i + 1..];
    VisitAllCons(g, kids[i], kids[i + 1..], w);
  }

  /** What one search leaves in the caller's set and list. */
  class Trail {
    var visited: set<Key>
    var path: seq<Key>

    constructor (visited: set<Key>)
      ensures this.visited == visited && path == []
    {
      this.visited, path := visited, [];
    }

    ghost predicate Matches(w: Walk<Key>)
      reads this
    {
      OnTrail(visited, path, w)
    }
  }

  function IndexOf<T(==)>(s: seq<T>, x: T): (i: nat)
    requires x in s
    ensures i < |s| && s[i] == x && x !in s[..i]
  {
    if s[0] == x then 0 else 1 + IndexOf(s[1..], x)
  }

  /** The cycle an error stands for once the rest of the stack has been put in front of it. */
  function Cut<V(==)>(stack: seq<V>, e: seq<V>): seq<V>
    requires |e| > 0
    requires Closed(e) || e[|e| - 1] in stack
  {
    if Closed(e) then e[..|e| - 1] else stack[IndexOf(stack, e[|e| - 1])..] + e[..|e| - 1]
  }

  lemma {:induction false} IndexOfUnique<T>(s: seq<T>, i: nat)
    requires Distinct(s) && i < |s|
    ensures IndexOf(s, s[i]) == i
  {
  }

  lemma {:induction false} SuffixFrom<V>(stack: seq<V>, n: V, x: V)
    requires Distinct(stack + [n]) && x in stack + [n] && x != n
    ensures x in stack && (stack + [n])[IndexOf(stack + [n], x)..] == stack[IndexOf(stack, x)..] + [n]
  {
    var long := stack + [n];
    var i: nat :| i < |long| && long[i] == x;
    IndexOfUnique(long, i);
    assert stack[i] == x;
    forall p, q | 0 <= p < q < |stack| ensures stack[p] != stack[q] {
      assert long[p] != long[q];
    }
    IndexOfUnique(stack, i);
    assert long[i..] == stack[i..] + [n];
  }

  lemma {:induction false} CutUnwind<V>(stack: seq<V>, n: V, e: seq<V>)
    requires |e| > 0 && Distinct(stack + [n])
    requires Closed(e) || e[|e| - 1] in stack + [n]
    ensures var f := Unwind(n, e);
            && (Closed(f) || f[|f| - 1] in stack)
            && Cut(stack, f) == Cut(stack + [n], e)
  {
    if !Closed(e) {
      var init, x := e[..|e| - 1], e[|e| - 1];
      var f := [n] + e;
      assert f[|f| - 1] == x && f[..|f| - 1] == [n] + init;
      if x == n {
        IndexOfUnique(stack + [n], |stack|);
        assert (stack + [n])[|stack|..] == [n];
      } else {
        SuffixFrom(stack, n, x);
        assert !Closed(f);
        Reassociate(stack[IndexOf(stack, x)..], n, init);
      }
    }
  }

  lemma {:induction false} Reassociate<V>(a: seq<V>, n: V, b: seq<V>)
    ensures (a + [n]) + b == a + ([n] + b)
  {
  }

  /** How a search that started below `stack` reports its outcome. */
  ghost predicate Reports(o: Outcome<Key>, stack: seq<Key>, found: Option<seq<Key>>) {
    match o
    case Done(_) => found.None?
    case CycleError(e) => |e| > 0 && (Closed(e) || e[|e| - 1] in stack) && found == Some(Cut(stack, e))
  }

  function Labels(nodes: map<Key, Entry>, keys: seq<Key>): (r: seq<Vertex>)
    requires forall k :: k in keys ==> k in nodes
    ensures |r| == |keys| && forall i :: 0 <= i < |keys| ==> r[i] == nodes[keys[i]].node
  {
    if keys == [] then [] else [nodes[keys[0]].node] + Labels(nodes, keys[1..])
  }

  lemma {:induction false} CycleInside(c: Contents, e: seq<Key>)
    requires c.Valid() && ClosedWalk(c.Succ(), e)
    ensures forall k :: k in e ==> k in c.nodes
  {
    forall i | 0 <= i < |e| ensures e[i] in c.nodes {
      var j := if i + 1 < |e| then i else 0;
      assert e[i] == e[j] && Edge(c.Succ(), e[j], e[j + 1]);
    }
  }

  /** The answer the search specification gives for a graph. */
  ghost function Verdict(c: Contents): Option<seq<Vertex>>
    requires c.Valid()
  {
    match Explore(c.Succ(), c.order)
    case Done(_) => None
    case CycleError(e) =>
      ExploreCorrect(c.Succ(), c.order);
      CycleInside(c, e);
      Some(Labels(c.nodes, e[..|e| - 1]))
  }

  /** What is left of the search from the `i`-th node on. */
  ghost function Onward(c: Contents, i: nat, w: Walk<Key>): Outcome<Key>
    requires i <= |c.order|
  {
    VisitAll(c.Succ(), c.order[i..], w)
  }

  lemma {:induction false} OnwardStep(c: Contents, i: nat, w: Walk<Key>)
    requires i < |c.order|
    ensures Onward(c, i, w)
         == match Visit(c.Succ(), c.order[i], w)
            case Done(w1) => Onward(c, i + 1, w1)
            case CycleError(e) => CycleError(e)
  {
    assert c.order[i..] == [c.order[i]] + c.order[i + 1..];
    VisitAllCons(c.Succ(), c.order[i], c.order[i + 1..], w);
  }

  lemma {:induction false} VerdictCycle(c: Contents, found: Option<seq<Key>>)
    requires c.Valid() && Explore(c.Succ(), c.order).CycleError?
    requires Reports(Explore(c.Succ(), c.order), [], found)
    ensures (forall k :: k in found.value ==> k in c.nodes) && Verdict(c) == Some(Labels(c.nodes, found.value))
  {
    ExploreCorrect(c.Succ(), c.order);
    var e := Explore(c.Succ(), c.order).nodes;
    CycleInside(c, e);
    assert found.value == e[..|e| - 1];
  }

  /** Dropping the nodes that no edge touches. */
  ghost function Keep(c: Contents, keys: seq<Key>): seq<Key> {
    Filter(k => c.HasEdge(k), keys)
  }

  lemma {:induction false} KeepStep(c: Contents, keys: seq<Key>, i: nat)
    requires i < |keys|
    ensures Keep(c, keys[..i + 1]) == Keep(c, keys[..i]) + if c.HasEdge(keys[i]) then [keys[i]] else []
  {
    assert keys[..i + 1] == keys[..i] + [keys[i]];
    FilterAppend(k => c.HasEdge(k), keys[..i], [keys[i]]);
  }

  lemma {:induction false} FilterDistinct<T>(keep: T -> bool, s: seq<T>)
    requires Distinct(s)
    ensures Distinct(Filter(keep, s))
  {
    if s != [] {
      FilterDistinct(keep, s[1..]);
      assert s[0] !in s[1..];
    }
  }

  lemma {:induction false} KeepValid(c: Contents, d: Contents)
    requires c.Valid() && d.order == Keep(c, c.order)
    requires forall k :: k in d.nodes <==> k in d.order
    requires forall k :: k in d.nodes ==> k in c.nodes && d.nodes[k] == c.nodes[k]
    ensures Pruned(c, d)
  {
    FilterDistinct(k => c.HasEdge(k), c.order);
    forall k, m | k in d.nodes && m in d.nodes[k].nextNodes ensures m in d.nodes {
      assert Edge(c.Succ(), k, m);
      assert c.HasEdge(m);
    }
  }

  ghost predicate Pruned(c: Contents, d: Contents) {
    && d.Valid()
    && d.order == Keep(c, c.order)
    && (forall k :: k in d.nodes <==> k in c.nodes && c.HasEdge(k))
    && (forall k :: k in d.nodes ==> d.nodes[k] == c.nodes[k])
  }

  /** The frame of `n` reports a cycle closed below it just as the frames below do. */
  lemma {:induction false} ReportsUp(stack: seq<Key>, n: Key, e: seq<Key>, found: Option<seq<Key>>)
    requires Distinct(stack + [n]) && Reports(CycleError(e), stack + [n], found)
    ensures Reports(Leave(n, CycleError(e)), stack, found)
  {
    CutUnwind(stack, n, e);
  }

  /** Meeting a node of the path again cuts the path there. */
  lemma {:induction false} ReportsHit(path: seq<Key>, k: Key)
    requires k in path
    ensures Reports(CycleError([k]), path, Some(path[IndexOf(path, k)..]))
  {
    assert [k][..0] == [];
    assert Cut(path, [k]) == path[IndexOf(path, k)..];
  }

  class WaitsForGraph {
    var order: seq<Key>
    var nodes: map<Key, Entry>

    constructor ()
      ensures Now() == Contents([], map[]) && Now().Valid()
    {
      order, nodes := [], map[];
    }

    ghost function Now(): Contents
      reads this
    {
      Contents(order, nodes)
    }

    method AddNode(v: Vertex)
      modifies this
      ensures Now() == old(Now()).WithNode(v)
    {
      if KeyOf(v) !in nodes {
        order := order + [KeyOf(v)];
        nodes := nodes[KeyOf(v) := Entry(v, [])];
      }
    }

    method AddEdge(from: Vertex, to: Vertex)
      modifies this
      ensures Now() == old(Now()).WithEdge(from, to)
    {
      if KeyOf(from) !in nodes {
        AddNode(from);
      }
      if KeyOf(to) !in nodes {
        AddNode(to);
      }
      var f := nodes[KeyOf(from)];
      for i := 0 to |f.nextNodes|
        invariant KeyOf(to) !in f.nextNodes[..i]
        invariant Now() == old(Now()).WithNode(from).WithNode(to)
      {
        if f.nextNodes[i] == KeyOf(to) {
          return;
        }
        assert f.nextNodes[..i + 1] == f.nextNodes[..i] + [f.nextNodes[i]];
      }
      assert f.nextNodes[..|f.nextNodes|] == f.nextNodes;
      nodes := nodes[KeyOf(from) := f.(nextNodes := f.nextNodes + [KeyOf(to)])];
    }

    /** The first node, in the order of the dictionary, that has `k` as a successor. */
    method FindFromNode(k: Key) returns (found: Option<Entry>)
      requires Now().Valid()
      ensures found.Some? <==> exists a :: Edge(Now().Succ(), a, k)
      ensures found.Some? ==>
                exists i :: && 0 <= i < |order| && Edge(Now().Succ(), order[i], k) && nodes[order[i]] == found.value
                            && forall j :: 0 <= j < i ==> !Edge(Now().Succ(), order[j], k)
    {
      for i := 0 to |order|
        invariant forall j :: 0 <= j < i ==> !Edge(Now().Succ(), order[j], k)
      {
        if k in nodes[order[i]].nextNodes {
          assert Edge(Now().Succ(), order[i], k);
          return Some(nodes[order[i]]);
        }
      }
      assert forall a :: Edge(Now().Succ(), a, k) ==> a in order;
      return None;
    }

    method RemoveNodesWithoutEdge()
      requires Now().Valid()
      modifies this
      ensures Pruned(old(Now()), Now())
    {
      ghost var c := Now();
      var tempOrder, tempNodes := [], map[];
      for i := 0 to |order|
        invariant Now() == c
        invariant tempOrder == Keep(c, c.order[..i])
        invariant forall k :: k in tempNodes <==> k in tempOrder
        invariant forall k :: k in tempNodes ==> k in c.nodes && tempNodes[k] == c.nodes[k]
      {
        var k := order[i];
        KeepStep(c, order, i);
        var incoming := FindFromNode(k);
        if nodes[k].nextNodes != [] || incoming.Some? {
          tempOrder := tempOrder + [k];
          tempNodes := tempNodes[k := nodes[k]];
        }
      }
      assert order[..|order|] == order;
      order, nodes := tempOrder, tempNodes;
      KeepValid(c, Now());
    }

    /** The successors, the visited set and the path drive the search exactly as in `Visit`. */
    method DepthFirstSearch(key: Key, t: Trail, ghost w: Walk<Key>) returns (found: Option<seq<Key>>)
      requires Now().Valid() && key in nodes
      requires t.Matches(w) && key !in t.visited
      modifies t
      ensures Reports(Visit(Now().Succ(), key, w), old(t.path), found)
      ensures found.None? ==> t.path == old(t.path) && t.Matches(Visit(Now().Succ(), key, w).walk)
      decreases nodes.Keys - t.visited
    {
      ghost var g, stack, w0 := Now().Succ(), t.path, w.(walking := w.walking + {key});
      TrailPush(t.visited, t.path, w, key);
      t.visited := t.visited + {key};
      t.path := t.path + [key];
      var kids := nodes[key].nextNodes;
      ghost var below := VisitAll(g, kids, w0);
      assert Kids(g, key) == kids;
      assert Visit(g, key, w) == Leave(key, below);
      assert kids[0..] == kids;
      ghost var now := w0;
      for i := 0 to |kids|
        invariant t.path == stack + [key] && t.Matches(now) && w0.walking <= now.walking
        invariant below == VisitAll(g, kids[i..], now)
      {
        NextKid(g, kids, i, now);
        if kids[i] in t.path {
          ReportsHit(t.path, kids[i]);
          ReportsUp(stack, key, [kids[i]], Some(t.path[IndexOf(t.path, kids[i])..]));
          return Some(t.path[IndexOf(t.path, kids[i])..]);
        }
        if kids[i] !in t.visited {
          found := DepthFirstSearch(kids[i], t, now);
          if found.Some? {
            ReportsUp(stack, key, Visit(g, kids[i], now).nodes, found);
            return;
          }
          now := Visit(g, kids[i], now).walk;
        }
      }
      TrailPop(t.visited, stack, key, now);
      t.path := t.path[..|t.path| - 1];
      assert t.path == stack;
      return None;
    }

    /** A search with the path argument left at its default, the empty list. */
    method SearchFrom(key: Key, visited: set<Key>, ghost w: Walk<Key>)
      returns (found: Option<seq<Key>>, visited': set<Key>)
      requires Now().Valid() && key in nodes && key !in visited
      requires w.walking == w.marked == visited
      ensures Reports(Visit(Now().Succ(), key, w), [], found)
      ensures found.None? ==> var w1 := Visit(Now().Succ(), key, w).walk; w1.walking == w1.marked == visited'
    {
      var t := new Trail(visited);
      found := DepthFirstSearch(key, t, w);
      visited' := t.visited;
    }

    method DetectCycle() returns (r: Option<seq<Vertex>>)
      requires Now().Valid()
      ensures r == Verdict(Now())
    {
      ghost var c, g, now := Now(), Now().Succ(), Walk({}, {}, []);
      var visited := {};
      assert c.order[0..] == c.order;
      for i := 0 to |order|
        invariant now.walking == visited && now.marked == visited
        invariant Explore(g, c.order) == Onward(c, i, now)
      {
        OnwardStep(c, i, now);
        if order[i] !in visited {
          var path;
          path, visited := SearchFrom(order[i], visited, now);
          if path.Some? {
            VerdictCycle(c, path);
            return Some(Labels(nodes, path.value));
          }
          now := Visit(g, order[i], now).walk;
        }
      }
      return None;
    }
  }

  // ----- what a verdict means

  /** The listed vertices, followed by the first again, form a simple cycle of the graph. */
  ghost predicate CycleOf(g: Graph<Key>, cycle: seq<Vertex>) {
    cycle != [] && SimpleCycle(g, Map(KeyOf, cycle) + [KeyOf(cycle[0])])
  }

  lemma {:induction false} AcyclicFromNodes(c: Contents)
    requires c.Valid()
    ensures Acyclic(c.Succ()) <==> !CyclicFrom(c.Succ(), c.order)
  {
    forall e | ClosedWalk(c.Succ(), e) ensures ReachesFrom(c.Succ(), c.order, e[0]) {
      CycleInside(c, e);
      ReachesSelf(c.Succ(), e[0]);
    }
  }

  /** Nothing is reported exactly when the graph has no cycle; otherwise a real one is. */
  lemma {:induction false} VerdictCorrect(c: Contents)
    requires c.Valid()
    ensures Verdict(c).None? <==> Acyclic(c.Succ())
    ensures Verdict(c).Some? ==> CycleOf(c.Succ(), Verdict(c).value)
  {
    ExploreCorrect(c.Succ(), c.order);
    AcyclicFromNodes(c);
    if Verdict(c).Some? {
      SearchCycle(c, Explore(c.Succ(), c.order).nodes);
      LabelsCycle(c, Explore(c.Succ(), c.order).nodes);
    }
  }

  lemma {:induction false} LabelsCycle(c: Contents, e: seq<Key>)
    requires c.Valid() && SimpleCycle(c.Succ(), e) && forall k :: k in e ==> k in c.nodes
    ensures CycleOf(c.Succ(), Labels(c.nodes, e[..|e| - 1]))
  {
    var cycle := Labels(c.nodes, e[..|e| - 1]);
    assert Map(KeyOf, cycle) == e[..|e| - 1];
    assert Map(KeyOf, cycle) + [KeyOf(cycle[0])] == e;
  }

  /** Removing the nodes no edge touches keeps every edge. */
  lemma {:induction false} PrunedEdges(c: Contents, d: Contents)
    requires c.Valid() && Pruned(c, d)
    ensures Untouched(c.Succ(), d.Succ(), c.nodes.Keys - d.nodes.Keys)
  {
    forall k ensures Kids(c.Succ(), k) == Kids(d.Succ(), k) {
      if k in c.nodes && k !in d.nodes {
        assert !c.HasEdge(k);
      }
    }
    forall k, m | m in Kids(c.Succ(), k) ensures m !in c.nodes.Keys - d.nodes.Keys {
      assert Edge(c.Succ(), k, m);
      assert c.HasEdge(m);
    }
  }

  lemma {:induction false} PrunedSearch(c: Contents, d: Contents)
    requires c.Valid() && Pruned(c, d)
    ensures SameOutcome(Explore(c.Succ(), c.order), Explore(d.Succ(), d.order), c.nodes.Keys - d.nodes.Keys)
  {
    var bare := c.nodes.Keys - d.nodes.Keys;
    var w: Walk<Key> := Walk({}, {}, []);
    PrunedEdges(c, d);
    FilterAgrees(k => c.HasEdge(k), k => k !in bare, c.order);
    VisitAllApart(c.Succ(), d.Succ(), c.order, d.order, w, w, bare);
  }

  /** ... and changes neither whether a cycle is reported nor which one. */
  lemma {:induction false} PrunedVerdict(c: Contents, d: Contents)
    requires c.Valid() && Pruned(c, d)
    ensures Verdict(d) == Verdict(c)
  {
    PrunedSearch(c, d);
    if Explore(c.Succ(), c.order).CycleError? {
      var e := Explore(c.Succ(), c.order).nodes;
      SearchCycle(c, e);
      SearchCycle(d, e);
      SameLabels(c.nodes, d.nodes, e[..|e| - 1]);
    }
  }

  lemma {:induction false} SameLabels(m: map<Key, Entry>, n: map<Key, Entry>, keys: seq<Key>)
    requires forall k :: k in keys ==> k in m && k in n && m[k] == n[k]
    ensures Labels(m, keys) == Labels(n, keys)
  {
  }

  lemma {:induction false} SearchCycle(c: Contents, e: seq<Key>)
    requires c.Valid() && Explore(c.Succ(), c.order) == CycleError(e)
    ensures |e| > 0 && forall k :: k in e ==> k in c.nodes
  {
    ExploreCorrect(c.Succ(), c.order);
    CycleInside(c, e);
  }

  lemma {:induction false} FilterAgrees<T>(p: T -> bool, q: T -> bool, s: seq<T>)
    requires forall x :: x in s ==> p(x) == q(x)
    ensures Filter(p, s) == Filter(q, s)
  {
    if s != [] {
      FilterAgrees(p, q, s[1..]);
    }
  }

  // ----- the graph of a set of waits

  /** One waiter found by the debugger, the lock it waits on and a holder of that lock. */
  datatype Wait = Wait(waiter: Vertex, lock: Vertex, holder: Vertex) {
    ghost predicate WellFormed() {
      !waiter.Lock? && lock.Lock? && !holder.Lock?
    }

    ghost predicate Joins(a: Key, b: Key) {
      || (a == KeyOf(waiter) && b == KeyOf(lock))
      || (a == KeyOf(lock) && b == KeyOf(holder))
    }
  }

  lemma {:induction false} WithNodeMeaning(c: Contents, v: Vertex)
    requires c.Valid()
    ensures c.WithNode(v).Valid() && KeyOf(v) in c.WithNode(v).nodes
    ensures c.nodes.Keys <= c.WithNode(v).nodes.Keys
    ensures forall k :: Kids(c.WithNode(v).Succ(), k) == Kids(c.Succ(), k)
  {
  }

  lemma {:induction false} WithLinkMeaning(c: Contents, from: Key, to: Key, a: Key, b: Key)
    requires c.Valid() && from in c.nodes && to in c.nodes
    ensures var d := c.WithLink(from, to);
            d.Valid() && (Edge(d.Succ(), a, b) <==> Edge(c.Succ(), a, b) || (a == from && b == to))
  {
  }

  /** Adding an edge adds that edge and nothing else. */
  lemma {:induction false} WithEdgeMeaning(c: Contents, from: Vertex, to: Vertex, a: Key, b: Key)
    requires c.Valid()
    ensures c.WithEdge(from, to).Valid()
    ensures Edge(c.WithEdge(from, to).Succ(), a, b) <==>
            Edge(c.Succ(), a, b) || (a == KeyOf(from) && b == KeyOf(to))
  {
    WithNodeMeaning(c, from);
    WithNodeMeaning(c.WithNode(from), to);
    WithLinkMeaning(c.WithNode(from).WithNode(to), KeyOf(from), KeyOf(to), a, b);
  }

  function Recorded(waits: seq<Wait>): Contents {
    if waits == [] then Contents([], map[])
    else
      var w := waits[|waits| - 1];
      Recorded(waits[..|waits| - 1]).WithEdge(w.waiter, w.lock).WithEdge(w.lock, w.holder)
  }

  ghost predicate Joined(waits: seq<Wait>, a: Key, b: Key) {
    exists w :: w in waits && w.Joins(a, b)
  }

  lemma {:induction false} JoinedSnoc(rest: seq<Wait>, last: Wait, a: Key, b: Key)
    ensures Joined(rest + [last], a, b) <==> Joined(rest, a, b) || last.Joins(a, b)
  {
    assert last in rest + [last];
  }

  lemma {:induction false} WaitMeaning(c: Contents, w: Wait, a: Key, b: Key)
    requires c.Valid()
    ensures var d := c.WithEdge(w.waiter, w.lock).WithEdge(w.lock, w.holder);
            d.Valid() && (Edge(d.Succ(), a, b) <==> Edge(c.Succ(), a, b) || w.Joins(a, b))
  {
    WithEdgeMeaning(c, w.waiter, w.lock, a, b);
    WithEdgeMeaning(c.WithEdge(w.waiter, w.lock), w.lock, w.holder, a, b);
  }

  lemma {:induction false} RecordedValid(waits: seq<Wait>)
    ensures Recorded(waits).Valid()
  {
    if waits != [] {
      RecordedValid(waits[..|waits| - 1]);
      WaitMeaning(Recorded(waits[..|waits| - 1]), waits[|waits| - 1], LockKey(0), LockKey(0));
    }
  }

  ghost predicate HasEdge(waits: seq<Wait>, a: Key, b: Key) {
    Edge(Recorded(waits).Succ(), a, b)
  }

  lemma {:induction false} RecordedSnoc(waits: seq<Wait>, a: Key, b: Key)
    requires waits != []
    ensures HasEdge(waits, a, b) <==> HasEdge(waits[..|waits| - 1], a, b) || waits[|waits| - 1].Joins(a, b)
  {
    RecordedValid(waits[..|waits| - 1]);
    WaitMeaning(Recorded(waits[..|waits| - 1]), waits[|waits| - 1], a, b);
  }

  lemma {:induction false} HasEdgeIff(waits: seq<Wait>, a: Key, b: Key)
    ensures HasEdge(waits, a, b) <==> Joined(waits, a, b)
  {
    if waits != [] {
      var rest, last := waits[..|waits| - 1], waits[|waits| - 1];
      HasEdgeIff(rest, a, b);
      RecordedSnoc(waits, a, b);
      JoinedSnoc(rest, last, a, b);
      assert waits == rest + [last];
    }
  }

  /** The edges are exactly the recorded waits and holds. */
  lemma {:induction false} RecordedEdges(waits: seq<Wait>, a: Key, b: Key)
    ensures Edge(Recorded(waits).Succ(), a, b) <==> Joined(waits, a, b)
  {
    HasEdgeIff(waits, a, b);
  }

  ghost predicate AllWellFormed(waits: seq<Wait>) {
    forall w :: w in waits ==> w.WellFormed()
  }

  /** The graph has exactly the edges of the waits. */
  ghost predicate GraphOf(g: Graph<Key>, waits: seq<Wait>) {
    forall a, b :: Edge(g, a, b) <==> Joined(waits, a, b)
  }

  lemma {:induction false} RecordedGraph(waits: seq<Wait>)
    ensures GraphOf(Recorded(waits).Succ(), waits)
  {
    forall a, b ensures Edge(Recorded(waits).Succ(), a, b) <==> Joined(waits, a, b) {
      RecordedEdges(waits, a, b);
    }
  }

  lemma {:induction false} JoinedKinds(waits: seq<Wait>, a: Key, b: Key)
    requires AllWellFormed(waits) && Joined(waits, a, b)
    ensures a.LockKey? != b.LockKey?
  {
  }

  lemma {:induction false} Alternates(g: Graph<Key>, waits: seq<Wait>, p: seq<Key>, i: nat)
    requires AllWellFormed(waits) && GraphOf(g, waits) && Linked(g, p) && i < |p|
    ensures p[i].LockKey? <==> (p[0].LockKey? <==> i % 2 == 0)
  {
    if i > 0 {
      Alternates(g, waits, p, i - 1);
      assert Edge(g, p[i - 1], p[i]);
      JoinedKinds(waits, p[i - 1], p[i]);
    }
  }

  /** A reported cycle alternates between locks and their holders, so its length is even. */
  lemma {:induction false} ReportedCycleAlternates(waits: seq<Wait>, cycle: seq<Vertex>, i: nat)
    requires AllWellFormed(waits) && CycleOf(Recorded(waits).Succ(), cycle) && i < |cycle|
    ensures |cycle| >= 2 && |cycle| % 2 == 0
    ensures cycle[i].Lock? <==> (cycle[0].Lock? <==> i % 2 == 0)
    ensures Joined(waits, KeyOf(cycle[i]), KeyOf(if i + 1 < |cycle| then cycle[i + 1] else cycle[0]))
  {
    RecordedGraph(waits);
    CycleAlternates(Recorded(waits).Succ(), waits, cycle, i);
  }

  lemma {:induction false} CycleAlternates(g: Graph<Key>, waits: seq<Wait>, cycle: seq<Vertex>, i: nat)
    requires AllWellFormed(waits) && GraphOf(g, waits) && CycleOf(g, cycle) && i < |cycle|
    ensures |cycle| >= 2 && |cycle| % 2 == 0
    ensures cycle[i].Lock? <==> (cycle[0].Lock? <==> i % 2 == 0)
    ensures Joined(waits, KeyOf(cycle[i]), KeyOf(if i + 1 < |cycle| then cycle[i + 1] else cycle[0]))
  {
    var e := Map(KeyOf, cycle) + [KeyOf(cycle[0])];
    Alternates(g, waits, e, |cycle|);
    Alternates(g, waits, e, i);
    assert Edge(g, e[i], e[i + 1]);
  }

  // ----- deadlock

  /** `a` waits on a lock that `b` holds: the waits name the same agents, and locks at one address. */
  ghost predicate WaitsOn(waits: seq<Wait>, a: Vertex, b: Vertex) {
    exists w, h :: && w in waits && h in waits && w.lock.Lock? && h.lock.Lock? && w.lock.addr == h.lock.addr
                   && SameAgent(w.waiter, a) && SameAgent(h.holder, b)
  }

  ghost predicate Chain(waits: seq<Wait>, p: seq<Vertex>) {
    forall i, j :: 0 <= i && j == i + 1 && j < |p| ==> WaitsOn(waits, p[i], p[j])
  }

  /** Some agents wait on one another in a ring. */
  ghost predicate Deadlocked(waits: seq<Wait>) {
    exists p :: |p| >= 2 && Chain(waits, p) && SameAgent(p[0], p[|p| - 1])
  }

  /** The same of keys: `a` waits on a lock that `b` holds. */
  ghost predicate KeyWaitsOn(waits: seq<Wait>, a: Key, b: Key) {
    exists w, h :: w in waits && h in waits && KeyOf(w.lock) == KeyOf(h.lock)
                   && KeyOf(w.waiter) == a && KeyOf(h.holder) == b
  }

  ghost predicate KeyChain(waits: seq<Wait>, p: seq<Key>) {
    forall i, j :: 0 <= i && j == i + 1 && j < |p| ==> KeyWaitsOn(waits, p[i], p[j])
  }

  ghost predicate KeyDeadlocked(waits: seq<Wait>) {
    exists p :: |p| >= 2 && KeyChain(waits, p) && p[0] == p[|p| - 1]
  }

  /** Waiting on another agent is a walk of two edges through the lock. */
  lemma {:induction false} HopThrough(g: Graph<Key>, waits: seq<Wait>, a: Key, b: Key) returns (lock: Key)
    requires GraphOf(g, waits) && KeyWaitsOn(waits, a, b)
    ensures Edge(g, a, lock) && Edge(g, lock, b)
  {
    var w, h :| w in waits && h in waits && KeyOf(w.lock) == KeyOf(h.lock)
                && KeyOf(w.waiter) == a && KeyOf(h.holder) == b;
    lock := KeyOf(w.lock);
    assert w.Joins(a, lock) && h.Joins(lock, b);
    assert Joined(waits, a, lock) && Joined(waits, lock, b);
  }

  lemma {:induction false} ChainTail(waits: seq<Wait>, p: seq<Key>)
    requires |p| > 0 && KeyChain(waits, p)
    ensures KeyChain(waits, p[1..])
  {
    forall i, j | 0 <= i && j == i + 1 && j < |p[1..]| ensures KeyWaitsOn(waits, p[1..][i], p[1..][j]) {
      assert KeyWaitsOn(waits, p[i + 1], p[j + 1]);
    }
  }

  lemma {:induction false} ChainCons(waits: seq<Wait>, a: Key, tail: seq<Key>)
    requires |tail| > 0 && KeyChain(waits, tail) && KeyWaitsOn(waits, a, tail[0])
    ensures KeyChain(waits, [a] + tail)
  {
    var p := [a] + tail;
    forall i, j | 0 <= i && j == i + 1 && j < |p| ensures KeyWaitsOn(waits, p[i], p[j]) {
      if i > 0 {
        assert KeyWaitsOn(waits, tail[i - 1], tail[j - 1]);
      }
    }
  }

  lemma {:induction false} ExpandChain(g: Graph<Key>, waits: seq<Wait>, p: seq<Key>) returns (q: seq<Key>)
    requires GraphOf(g, waits) && |p| > 0 && KeyChain(waits, p)
    ensures Linked(g, q)
    ensures |q| == 2 * |p| - 1 && q[0] == p[0] && q[|q| - 1] == p[|p| - 1]
    decreases |p|
  {
    if |p| == 1 {
      return p;
    }
    var lock := HopThrough(g, waits, p[0], p[1]);
    ChainTail(waits, p);
    var tail := ExpandChain(g, waits, p[1..]);
    LinkedJoin(g, [p[0], lock], tail);
    q := [p[0], lock] + tail;
  }

  lemma {:induction false} HopWaits(g: Graph<Key>, waits: seq<Wait>, a: Key, lock: Key, b: Key)
    requires AllWellFormed(waits) && GraphOf(g, waits) && Edge(g, a, lock) && Edge(g, lock, b) && !a.LockKey?
    ensures KeyWaitsOn(waits, a, b) && lock.LockKey? && !b.LockKey?
  {
    assert Joined(waits, a, lock) && Joined(waits, lock, b);
    var w :| w in waits && w.Joins(a, lock);
    var h :| h in waits && h.Joins(lock, b);
    assert w.WellFormed() && h.WellFormed();
    assert KeyOf(w.lock) == lock == KeyOf(h.lock);
  }

  lemma {:induction false} CollapseWalk(g: Graph<Key>, waits: seq<Wait>, q: seq<Key>) returns (p: seq<Key>)
    requires AllWellFormed(waits) && GraphOf(g, waits) && |q| > 0 && Linked(g, q)
    requires !q[0].LockKey? && !q[|q| - 1].LockKey?
    ensures KeyChain(waits, p)
    ensures |q| == 2 * |p| - 1 && q[0] == p[0] && q[|q| - 1] == p[|p| - 1]
    decreases |q|
  {
    if |q| == 1 {
      return q;
    }
    Alternates(g, waits, q, 1);
    assert Edge(g, q[0], q[1]) && Edge(g, q[1], q[2]);
    HopWaits(g, waits, q[0], q[1], q[2]);
    LinkedPrefix(g, q, 2);
    var tail := CollapseWalk(g, waits, q[2..]);
    ChainCons(waits, q[0], tail);
    p := [q[0]] + tail;
  }

  lemma {:induction false} DeadlockIsCycle(g: Graph<Key>, waits: seq<Wait>)
    requires GraphOf(g, waits) && KeyDeadlocked(waits)
    ensures !Acyclic(g)
  {
    var p :| |p| >= 2 && KeyChain(waits, p) && p[0] == p[|p| - 1];
    var q := ExpandChain(g, waits, p);
    assert ClosedWalk(g, q);
  }

  /** A closed walk can be started at an agent. */
  lemma {:induction false} StartAtAgent(g: Graph<Key>, waits: seq<Wait>, c: seq<Key>) returns (q: seq<Key>)
    requires AllWellFormed(waits) && GraphOf(g, waits) && ClosedWalk(g, c)
    ensures ClosedWalk(g, q) && !q[0].LockKey?
  {
    q := c;
    if c[0].LockKey? {
      assert Edge(g, c[0], c[1]);
      JoinedKinds(waits, c[0], c[1]);
      LinkedPrefix(g, c, 1);
      LinkedJoin(g, c[1..], [c[1]]);
      q := c[1..] + [c[1]];
    }
  }

  lemma {:induction false} CycleIsDeadlock(g: Graph<Key>, waits: seq<Wait>)
    requires AllWellFormed(waits) && GraphOf(g, waits) && !Acyclic(g)
    ensures KeyDeadlocked(waits)
  {
    var c: seq<Key> :| ClosedWalk(g, c);
    var q := StartAtAgent(g, waits, c);
    var p := CollapseWalk(g, waits, q);
    assert |p| >= 2 && KeyChain(waits, p) && p[0] == p[|p| - 1];
  }

  // ----- agents and their keys

  lemma {:induction false} KeyWaits(waits: seq<Wait>, a: Vertex, b: Vertex)
    requires AllWellFormed(waits) && !a.Lock? && !b.Lock?
    ensures WaitsOn(waits, a, b) <==> KeyWaitsOn(waits, KeyOf(a), KeyOf(b))
  {
    if WaitsOn(waits, a, b) {
      var w, h :| && w in waits && h in waits && w.lock.Lock? && h.lock.Lock? && w.lock.addr == h.lock.addr
                  && SameAgent(w.waiter, a) && SameAgent(h.holder, b);
      KeyLaw(w.lock, h.lock);
      KeyLaw(w.waiter, a);
      KeyLaw(h.holder, b);
    }
    if KeyWaitsOn(waits, KeyOf(a), KeyOf(b)) {
      var w, h :| w in waits && h in waits && KeyOf(w.lock) == KeyOf(h.lock)
                  && KeyOf(w.waiter) == KeyOf(a) && KeyOf(h.holder) == KeyOf(b);
      assert w.WellFormed() && h.WellFormed();
      KeyLaw(w.lock, h.lock);
      KeyLaw(w.waiter, a);
      KeyLaw(h.holder, b);
    }
  }

  ghost predicate AllAgents(p: seq<Vertex>) {
    forall i :: 0 <= i < |p| ==> !p[i].Lock?
  }

  lemma {:induction false} ChainOfKeys(waits: seq<Wait>, p: seq<Vertex>)
    requires AllWellFormed(waits) && AllAgents(p)
    ensures Chain(waits, p) <==> KeyChain(waits, Map(KeyOf, p))
  {
    var q := Map(KeyOf, p);
    if Chain(waits, p) {
      forall i, j | 0 <= i && j == i + 1 && j < |q| ensures KeyWaitsOn(waits, q[i], q[j]) {
        assert WaitsOn(waits, p[i], p[j]);
        KeyWaits(waits, p[i], p[j]);
      }
    }
    if KeyChain(waits, q) {
      forall i, j | 0 <= i && j == i + 1 && j < |p| ensures WaitsOn(waits, p[i], p[j]) {
        assert KeyWaitsOn(waits, q[i], q[j]);
        KeyWaits(waits, p[i], p[j]);
      }
    }
  }

  lemma {:induction false} ChainAgents(waits: seq<Wait>, p: seq<Vertex>)
    requires |p| >= 2 && Chain(waits, p)
    ensures AllAgents(p)
  {
    forall i | 0 <= i < |p| ensures !p[i].Lock? {
      if i > 0 {
        assert WaitsOn(waits, p[i - 1], p[i]);
      } else {
        assert WaitsOn(waits, p[0], p[1]);
      }
    }
  }

  /** An agent that a wait names by its key. */
  lemma {:induction false} AgentOf(waits: seq<Wait>, q: seq<Key>, i: nat) returns (v: Vertex)
    requires AllWellFormed(waits) && |q| >= 2 && KeyChain(waits, q) && i < |q|
    ensures !v.Lock? && KeyOf(v) == q[i]
  {
    if i > 0 {
      assert KeyWaitsOn(waits, q[i - 1], q[i]);
      var h :| h in waits && KeyOf(h.holder) == q[i];
      assert h.WellFormed();
      v := h.holder;
    } else {
      assert KeyWaitsOn(waits, q[0], q[1]);
      var w :| w in waits && KeyOf(w.waiter) == q[0];
      assert w.WellFormed();
      v := w.waiter;
    }
  }

  lemma {:induction false} AgentsOf(waits: seq<Wait>, q: seq<Key>, n: nat) returns (p: seq<Vertex>)
    requires AllWellFormed(waits) && |q| >= 2 && KeyChain(waits, q) && n <= |q|
    ensures |p| == n && AllAgents(p) && Map(KeyOf, p) == q[..n]
  {
    p := [];
    if n > 0 {
      var init := AgentsOf(waits, q, n - 1);
      var v := AgentOf(waits, q, n - 1);
      p := init + [v];
    }
  }

  lemma {:induction false} RingOfKeys(waits: seq<Wait>, p: seq<Vertex>)
    requires AllWellFormed(waits) && |p| >= 2 && Chain(waits, p) && SameAgent(p[0], p[|p| - 1])
    ensures KeyDeadlocked(waits)
  {
    ChainAgents(waits, p);
    ChainOfKeys(waits, p);
    KeyLaw(p[0], p[|p| - 1]);
    var q := Map(KeyOf, p);
    assert |q| >= 2 && KeyChain(waits, q) && q[0] == q[|q| - 1];
  }

  lemma {:induction false} RingOfAgents(waits: seq<Wait>, q: seq<Key>)
    requires AllWellFormed(waits) && |q| >= 2 && KeyChain(waits, q) && q[0] == q[|q| - 1]
    ensures Deadlocked(waits)
  {
    var p := AgentsOf(waits, q, |q|);
    assert q[..|q|] == q;
    ChainOfKeys(waits, p);
    KeyLaw(p[0], p[|p| - 1]);
    assert |p| >= 2 && Chain(waits, p) && SameAgent(p[0], p[|p| - 1]);
  }

  lemma {:induction false} DeadlockOfKeys(waits: seq<Wait>)
    requires AllWellFormed(waits)
    ensures Deadlocked(waits) <==> KeyDeadlocked(waits)
  {
    if Deadlocked(waits) {
      var p :| |p| >= 2 && Chain(waits, p) && SameAgent(p[0], p[|p| - 1]);
      RingOfKeys(waits, p);
    }
    if KeyDeadlocked(waits) {
      var q :| |q| >= 2 && KeyChain(waits, q) && q[0] == q[|q| - 1];
      RingOfAgents(waits, q);
    }
  }

  /** The debugger reports a cycle exactly when the waits it found form a deadlock. */
  lemma {:induction false} DeadlockReported(waits: seq<Wait>)
    requires AllWellFormed(waits)
    ensures Recorded(waits).Valid()
    ensures Verdict(Recorded(waits)).Some? <==> Deadlocked(waits)
  {
    DeadlockOfKeys(waits);
    RecordedValid(waits);
    RecordedGraph(waits);
    VerdictCorrect(Recorded(waits));
    if KeyDeadlocked(waits) {
      DeadlockIsCycle(Recorded(waits).Succ(), waits);
    }
    if !Acyclic(Recorded(waits).Succ()) {
      CycleIsDeadlock(Recorded(waits).Succ(), waits);
    }
  }

  /** The steps of the vertices in a ring are recorded waits and holds, and no two of them are the same. */
  ghost predicate WaitCycle(waits: seq<Wait>, cycle: seq<Vertex>) {
    && |cycle| >= 2 && |cycle| % 2 == 0
    && (forall i, j :: 0 <= i < j < |cycle| ==> !SameVertex(cycle[i], cycle[j]))
    && (forall i :: 0 <= i < |cycle| ==> Stepped(waits, cycle[i], cycle[if i + 1 < |cycle| then i + 1 else 0]))
  }

  /** Some wait has the first waiting for the second, or the first held by the second. */
  ghost predicate Stepped(waits: seq<Wait>, u: Vertex, v: Vertex) {
    exists w :: w in waits && ((SameAgent(w.waiter, u) && SameLock(w.lock, v)) || (SameLock(w.lock, u) && SameAgent(w.holder, v)))
  }

  lemma {:induction false} JoinedSteps(waits: seq<Wait>, u: Vertex, v: Vertex)
    requires AllWellFormed(waits) && Joined(waits, KeyOf(u), KeyOf(v))
    ensures Stepped(waits, u, v)
  {
    var w :| w in waits && w.Joins(KeyOf(u), KeyOf(v));
    assert w.WellFormed();
    KeyLaw(w.waiter, u);
    KeyLaw(w.lock, v);
    KeyLaw(w.lock, u);
    KeyLaw(w.holder, v);
  }

  lemma {:induction false} ReportedCycleReal(waits: seq<Wait>, cycle: seq<Vertex>)
    requires AllWellFormed(waits) && CycleOf(Recorded(waits).Succ(), cycle)
    ensures WaitCycle(waits, cycle)
  {
    var keys := Map(KeyOf, cycle);
    ReportedCycleAlternates(waits, cycle, 0);
    forall i, j | 0 <= i < j < |cycle| ensures !SameVertex(cycle[i], cycle[j]) {
      KeyLaw(cycle[i], cycle[j]);
      assert (keys + [keys[0]])[..|keys|] == keys;
      assert keys[i] != keys[j];
    }
    forall i | 0 <= i < |cycle| ensures Stepped(waits, cycle[i], cycle[if i + 1 < |cycle| then i + 1 else 0]) {
      ReportedCycleAlternates(waits, cycle, i);
      JoinedSteps(waits, cycle[i], cycle[if i + 1 < |cycle| then i + 1 else 0]);
    }
  }

  method BuildGraph(waits: seq<Wait>) returns (g: WaitsForGraph)
    ensures fresh(g) && g.Now() == Recorded(waits)
  {
    g := new WaitsForGraph();
    assert waits[..0] == [];
    for i := 0 to |waits|
      invariant fresh(g) && g.Now() == Recorded(waits[..i])
    {
      assert waits[..i + 1][..i] == waits[..i];
      g.AddEdge(waits[i].waiter, waits[i].lock);
      g.AddEdge(waits[i].lock, waits[i].holder);
    }
    assert waits[..|waits|] == waits;
  }

  /** Builds the graph of the waits found, prunes it and looks for a cycle. */
  method WaitsForCycle(waits: seq<Wait>) returns (r: Option<seq<Vertex>>)
    requires AllWellFormed(waits)
    ensures r.Some? <==> Deadlocked(waits)
    ensures r.Some? ==> WaitCycle(waits, r.value)
  {
    var g := BuildGraph(waits);
    ghost var c := g.Now();
    DeadlockReported(waits);
    VerdictCorrect(c);
    g.RemoveNodesWithoutEdge();
    PrunedVerdict(c, g.Now());
    if g.order == [] {
      return None;
    }
    r := g.DetectCycle();
    if r.Some? {
      ReportedCycleReal(waits, r.value);
    }
  }
}
