/** The order of the waits-for graph's dictionary and lists, and which cycle is reported first. */
module LockOrder {
  import opened Wrappers
  import opened Sorting
  import opened Digraph
  import opened DepthFirst
  import opened SearchOrder
  import opened LockGraph

  /** The list holds what is mentioned, once each and in the order of the first mention. */
  ghost predicate ByFirstMention(list: seq<Key>, mentions: seq<Key>) {
    && Distinct(list) && (forall k :: k in list <==> k in mentions)
    && forall i, j :: 0 <= i < j < |list| ==>
         list[i] in mentions && list[j] in mentions && IndexOf(mentions, list[i]) < IndexOf(mentions, list[j])
  }

  lemma {:induction false} IndexOfPrefix(mentions: seq<Key>, k: Key, x: Key)
    requires x in mentions
    ensures IndexOf(mentions + [k], x) == IndexOf(mentions, x)
  {
    if mentions[0] != x {
      assert (mentions + [k])[1..] == mentions[1..] + [k];
      IndexOfPrefix(mentions[1..], k, x);
    }
  }

  lemma {:induction false} IndexOfNew(mentions: seq<Key>, k: Key)
    requires k !in mentions
    ensures IndexOf(mentions + [k], k) == |mentions|
  {
    if mentions != [] {
      assert (mentions + [k])[1..] == mentions[1..] + [k];
      IndexOfNew(mentions[1..], k);
    }
  }

  /** A key goes to the end of a list unless it is there. */
  function Noted(list: seq<Key>, k: Key): seq<Key> {
    if k in list then list else list + [k]
  }

  lemma {:induction false} MentionOne(list: seq<Key>, mentions: seq<Key>, k: Key)
    requires ByFirstMention(list, mentions)
    ensures ByFirstMention(Noted(list, k), mentions + [k])
  {
    var all, longer := mentions + [k], Noted(list, k);
    forall x | x in mentions ensures IndexOf(all, x) == IndexOf(mentions, x) { IndexOfPrefix(mentions, k, x); }
    forall i, j | 0 <= i < j < |longer|
      ensures longer[i] in all && longer[j] in all && IndexOf(all, longer[i]) < IndexOf(all, longer[j])
    {
      assert longer[i] == list[i] && list[i] in mentions;
      if j < |list| {
        assert longer[j] == list[j] && list[j] in mentions;
      } else {
        IndexOfNew(mentions, k);
      }
    }
  }

  lemma {:induction false} MentionTwo(list: seq<Key>, mentions: seq<Key>, a: Key, b: Key)
    requires ByFirstMention(list, mentions)
    ensures ByFirstMention(Noted(Noted(list, a), b), mentions + [a] + [b])
  {
    MentionOne(list, mentions, a);
    MentionOne(Noted(list, a), mentions + [a], b);
  }

  // ----- the dictionary

  function EdgeMentions(w: Wait): seq<Key> {
    [KeyOf(w.waiter), KeyOf(w.lock), KeyOf(w.lock), KeyOf(w.holder)]
  }

  /** The vertices as the edges name them. */
  function Mentions(waits: seq<Wait>): seq<Key> {
    if waits == [] then [] else Mentions(waits[..|waits| - 1]) + EdgeMentions(waits[|waits| - 1])
  }

  lemma {:induction false} NodeOrder(c: Contents, v: Vertex)
    requires c.Valid()
    ensures c.WithNode(v).Valid() && c.WithNode(v).order == Noted(c.order, KeyOf(v))
  {
    WithNodeMeaning(c, v);
  }

  lemma {:induction false} EdgeOrder(c: Contents, from: Vertex, to: Vertex)
    requires c.Valid()
    ensures c.WithEdge(from, to).Valid()
    ensures c.WithEdge(from, to).order == Noted(Noted(c.order, KeyOf(from)), KeyOf(to))
  {
    NodeOrder(c, from);
    NodeOrder(c.WithNode(from), to);
    WithEdgeMeaning(c, from, to, KeyOf(from), KeyOf(to));
    LinkKeepsOrder(c.WithNode(from).WithNode(to), KeyOf(from), KeyOf(to));
  }

  lemma {:induction false} LinkKeepsOrder(c: Contents, from: Key, to: Key)
    ensures from in c.nodes ==> c.WithLink(from, to).order == c.order
  {
  }

  /** The dictionary lists the vertices in the order in which the waits first name them. */
  lemma {:induction false} RecordedOrder(waits: seq<Wait>)
    ensures ByFirstMention(Recorded(waits).order, Mentions(waits))
  {
    if waits != [] {
      var rest, w := waits[..|waits| - 1], waits[|waits| - 1];
      var c, ms := Recorded(rest), Mentions(rest);
      RecordedOrder(rest);
      RecordedValid(rest);
      WaitOrder(c, w, ms);
    }
  }

  lemma {:induction false} MentionFour(list: seq<Key>, mentions: seq<Key>, a: Key, b: Key, d: Key, e: Key)
    requires ByFirstMention(list, mentions)
    ensures ByFirstMention(Noted(Noted(Noted(Noted(list, a), b), d), e), mentions + [a, b, d, e])
  {
    MentionTwo(list, mentions, a, b);
    var half := mentions + [a] + [b];
    MentionTwo(Noted(Noted(list, a), b), half, d, e);
    assert half + [d] + [e] == mentions + [a, b, d, e];
  }

  lemma {:induction false} WaitOrder(c: Contents, w: Wait, mentions: seq<Key>)
    requires c.Valid() && ByFirstMention(c.order, mentions)
    ensures ByFirstMention(c.WithEdge(w.waiter, w.lock).WithEdge(w.lock, w.holder).order, mentions + EdgeMentions(w))
  {
    EdgeOrder(c, w.waiter, w.lock);
    EdgeOrder(c.WithEdge(w.waiter, w.lock), w.lock, w.holder);
    MentionFour(c.order, mentions, KeyOf(w.waiter), KeyOf(w.lock), KeyOf(w.lock), KeyOf(w.holder));
  }

  // ----- the successors

  function EdgeLink(from: Vertex, to: Vertex, k: Key): seq<Key> {
    if KeyOf(from) == k then [KeyOf(to)] else []
  }

  /** The successors of a vertex as the waits name them. */
  function Links(waits: seq<Wait>, k: Key): seq<Key> {
    if waits == [] then []
    else
      var w := waits[|waits| - 1];
      Links(waits[..|waits| - 1], k) + EdgeLink(w.waiter, w.lock, k) + EdgeLink(w.lock, w.holder, k)
  }

  lemma {:induction false} LinkKids(c: Contents, from: Key, to: Key, k: Key)
    requires from in c.nodes
    ensures Kids(c.WithLink(from, to).Succ(), k)
         == if k == from then Noted(Kids(c.Succ(), k), to) else Kids(c.Succ(), k)
  {
  }

  lemma {:induction false} EdgeKids(c: Contents, from: Vertex, to: Vertex, k: Key)
    requires c.Valid()
    ensures Kids(c.WithEdge(from, to).Succ(), k)
         == if k == KeyOf(from) then Noted(Kids(c.Succ(), k), KeyOf(to)) else Kids(c.Succ(), k)
  {
    var d := c.WithNode(from).WithNode(to);
    WithNodeMeaning(c, from);
    WithNodeMeaning(c.WithNode(from), to);
    assert Kids(d.Succ(), k) == Kids(c.WithNode(from).Succ(), k) == Kids(c.Succ(), k);
    LinkKids(d, KeyOf(from), KeyOf(to), k);
  }

  lemma {:induction false} LinkOrder(c: Contents, from: Vertex, to: Vertex, k: Key, links: seq<Key>)
    requires c.Valid() && ByFirstMention(Kids(c.Succ(), k), links)
    ensures ByFirstMention(Kids(c.WithEdge(from, to).Succ(), k), links + EdgeLink(from, to, k))
  {
    EdgeKids(c, from, to, k);
    if k == KeyOf(from) {
      MentionOne(Kids(c.Succ(), k), links, KeyOf(to));
    } else {
      assert links + [] == links;
    }
  }

  /** The successors of each vertex stand in the order in which the waits first name them. */
  lemma {:induction false} RecordedLinks(waits: seq<Wait>, k: Key)
    ensures ByFirstMention(Kids(Recorded(waits).Succ(), k), Links(waits, k))
  {
    if waits != [] {
      var rest, w := waits[..|waits| - 1], waits[|waits| - 1];
      var c, links := Recorded(rest), Links(rest, k);
      RecordedLinks(rest, k);
      RecordedValid(rest);
      LinkOrder(c, w.waiter, w.lock, k, links);
      WithEdgeMeaning(c, w.waiter, w.lock, k, k);
      LinkOrder(c.WithEdge(w.waiter, w.lock), w.lock, w.holder, k, links + EdgeLink(w.waiter, w.lock, k));
    }
  }

  // ----- the verdict

  /** The cycle reported is one that the first vertex to reach any cycle reaches, from the vertex on at
      which it is entered. */
  lemma {:induction false} FirstReported(c: Contents) returns (i: nat)
    requires c.Valid() && Verdict(c).Some?
    ensures i < |c.order| && !CyclicFrom(c.Succ(), c.order[..i])
    ensures Enters(c.Succ(), c.order[i], Map(KeyOf, Verdict(c).value))
  {
    var g := c.Succ();
    var e := Explore(g, c.order).nodes;
    i := FirstRootFails(g, c.order);
    ExploreCorrect(g, c.order);
    CycleInside(c, e);
    var keys := Map(KeyOf, Verdict(c).value);
    assert keys == e[..|e| - 1];
    var p :| EntersBy(g, c.order[i], e, p);
    assert EntersBy(g, c.order[i], keys, p);
  }
}
