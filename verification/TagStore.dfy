/** The store of test tags: kinds of tests, patterns of each kind, and a list of tags for each
    pattern. A YAML null may stand for a mapping or for a list. */
module TagStore {
  import opened Sorting

  datatype Nullable<+T> = Null | Value(value: T)

  type TagList = Nullable<seq<string>>
  type Patterns = Nullable<map<string, TagList>>
  type Conf = map<string, Patterns>

  type Order = (string, string) -> bool

  // ----- reading

  /** `getdefault`: the patterns of a kind, none for an absent or null kind. */
  function PatternsOf(c: Conf, kind: string): map<string, TagList> {
    if kind in c && c[kind].Value? then c[kind].value else map[]
  }

  function TagsIn(patterns: map<string, TagList>, pattern: string): seq<string> {
    if pattern in patterns && patterns[pattern].Value? then patterns[pattern].value else []
  }

  function GetTags(c: Conf, kind: string, pattern: string): seq<string> {
    TagsIn(PatternsOf(c, kind), pattern)
  }

  predicate Has(c: Conf, kind: string, pattern: string, tag: string) {
    tag in GetTags(c, kind, pattern)
  }

  // ----- the effect of each operation

  function Other(tag: string): string -> bool {
    (value: string) => value != tag
  }

  function Added(leq: Order, c: Conf, kind: string, pattern: string, tag: string): Conf {
    var patterns, tags := PatternsOf(c, kind), GetTags(c, kind, pattern);
    c[kind := Value(patterns[pattern := Value(if tag in tags then tags else Sort(leq, tags + [tag]))])]
  }

  function Removed(c: Conf, kind: string, pattern: string, tag: string): Conf {
    var patterns, tags := PatternsOf(c, kind), GetTags(c, kind, pattern);
    if tag !in tags then c
    else
      var left := Filter(Other(tag), tags);
      c[kind := Value(if left == [] then patterns - {pattern} else patterns[pattern := Value(left)])]
  }

  function PatternRemoved(c: Conf, kind: string, pattern: string): Conf {
    if pattern !in PatternsOf(c, kind) then c
    else c[kind := Value(PatternsOf(c, kind) - {pattern})]
  }

  class TagsConfig {
    const leq: Order
    var conf: Conf
    var confCopy: Conf

    constructor (conf: Conf, leq: Order)
      ensures this.conf == confCopy == conf && this.leq == leq
    {
      this.conf, confCopy, this.leq := conf, conf, leq;
    }

    method AddTag(kind: string, pattern: string, tag: string) returns (added: bool)
      modifies `conf
      ensures conf == Added(leq, old(conf), kind, pattern, tag)
      ensures added == !Has(old(conf), kind, pattern, tag)
    {
      if kind !in conf || conf[kind].Null? {
        conf := conf[kind := Value(map[])];
      }
      var patterns := conf[kind].value;
      if pattern !in patterns || patterns[pattern].Null? {
        patterns := patterns[pattern := Value([])];
      }
      var tags := patterns[pattern].value;
      added := tag !in tags;
      if added {
        tags := Sort(leq, tags + [tag]);
      }
      patterns := patterns[pattern := Value(tags)];
      conf := conf[kind := Value(patterns)];
      assert patterns == PatternsOf(old(conf), kind)[pattern := Value(tags)];
      assert conf == old(conf)[kind := Value(patterns)];
    }

    method RemoveTag(kind: string, pattern: string, tag: string) returns (removed: bool)
      modifies `conf
      ensures conf == Removed(old(conf), kind, pattern, tag)
      ensures removed == Has(old(conf), kind, pattern, tag)
    {
      if kind !in conf || conf[kind].Null? || conf[kind].value == map[] || pattern !in conf[kind].value {
        return false;
      }
      var patterns := conf[kind].value;
      var tags := patterns[pattern];
      if tags.Value? && tags.value != [] && tag in tags.value {
        var left := Filter(Other(tag), tags.value);
        patterns := patterns[pattern := Value(left)];
        if left == [] {
          patterns := patterns - {pattern};
          assert patterns == PatternsOf(conf, kind) - {pattern};
        }
        conf := conf[kind := Value(patterns)];
        return true;
      }
      return false;
    }

    method RemoveTestPattern(kind: string, pattern: string)
      modifies `conf
      ensures conf == PatternRemoved(old(conf), kind, pattern)
    {
      if kind !in conf || conf[kind].Null? || conf[kind].value == map[] || pattern !in conf[kind].value {
        return;
      }
      conf := conf[kind := Value(conf[kind].value - {pattern})];
    }

    method IsModified() returns (modified: bool)
      ensures modified <==> conf != confCopy
    {
      modified := conf != confCopy;
    }
  }

  // ----- runs of operations

  datatype Op =
    | Add(kind: string, pattern: string, tag: string)
    | Remove(kind: string, pattern: string, tag: string)
    | RemovePattern(kind: string, pattern: string)

  function Apply(leq: Order, c: Conf, op: Op): Conf {
    match op
    case Add(k, p, t) => Added(leq, c, k, p, t)
    case Remove(k, p, t) => Removed(c, k, p, t)
    case RemovePattern(k, p) => PatternRemoved(c, k, p)
  }

  function Run(leq: Order, c: Conf, ops: seq<Op>): Conf {
    if ops == [] then c else Apply(leq, Run(leq, c, ops[..|ops| - 1]), ops[|ops| - 1])
  }

  /** What an operation does to the membership of one tag, as in a set. */
  function Effect(op: Op, kind: string, pattern: string, tag: string, had: bool): bool {
    match op
    case Add(k, p, t) => had || (k == kind && p == pattern && t == tag)
    case Remove(k, p, t) => had && !(k == kind && p == pattern && t == tag)
    case RemovePattern(k, p) => had && !(k == kind && p == pattern)
  }

  function Effects(ops: seq<Op>, kind: string, pattern: string, tag: string, had: bool): bool {
    if ops == [] then had
    else Effect(ops[|ops| - 1], kind, pattern, tag, Effects(ops[..|ops| - 1], kind, pattern, tag, had))
  }

  /** Sorted and free of duplicates. */
  ghost predicate TidyList(leq: Order, tags: seq<string>) {
    Sorted(leq, tags) && Distinct(tags)
  }

  lemma {:induction false} DropLast(tags: seq<string>, tag: string)
    requires tag !in tags
    ensures Filter(Other(tag), tags + [tag]) == tags
  {
    FilterAppend(Other(tag), tags, [tag]);
    FilterKeepsAll(Other(tag), tags);
    assert Filter(Other(tag), [tag]) == [];
  }

  /** Sorting a new tag in and dropping it again is sorting the old tags. */
  lemma {:induction false} SortInDropOut(leq: Order, tags: seq<string>, tag: string)
    requires TotalPreorder(leq) && tag !in tags
    ensures Filter(Other(tag), Sort(leq, tags + [tag])) == Sort(leq, tags)
  {
    FilterSort(leq, Other(tag), tags + [tag]);
    DropLast(tags, tag);
  }

  lemma {:induction false} SortInsertsTag(leq: Order, tags: seq<string>, tag: string)
    requires tag !in tags
    ensures forall t :: t in Sort(leq, tags + [tag]) <==> t in tags || t == tag
    ensures Distinct(tags) ==> Distinct(Sort(leq, tags + [tag]))
  {
    SameElements(tags + [tag], Sort(leq, tags + [tag]));
    if Distinct(tags) {
      DistinctByCount(tags + [tag], Sort(leq, tags + [tag]));
    }
  }

  lemma {:induction false} FilterKeepsAll<T>(keep: T -> bool, s: seq<T>)
    requires forall x :: x in s ==> keep(x)
    ensures Filter(keep, s) == s
  {
    if s != [] {
      FilterKeepsAll(keep, s[1..]);
    }
  }

  lemma {:induction false} FilterTidy<T>(leq: (T, T) -> bool, keep: T -> bool, s: seq<T>)
    requires Sorted(leq, s) && Distinct(s)
    ensures Sorted(leq, Filter(keep, s)) && Distinct(Filter(keep, s))
  {
    if s != [] {
      FilterTidy(leq, keep, s[1..]);
      assert s[0] !in s[1..];
      forall x | x in s[1..] ensures leq(s[0], x) {}
    }
  }

  /** One operation acts on tags as on a set and keeps every list tidy. */
  lemma {:induction false} ApplyEffect(leq: Order, c: Conf, op: Op, kind: string, pattern: string)
    requires TotalPreorder(leq) && TidyList(leq, GetTags(c, kind, pattern))
    ensures TidyList(leq, GetTags(Apply(leq, c, op), kind, pattern))
    ensures forall t :: Has(Apply(leq, c, op), kind, pattern, t) <==>
                        Effect(op, kind, pattern, t, Has(c, kind, pattern, t))
  {
    var tags, after := GetTags(c, kind, pattern), GetTags(Apply(leq, c, op), kind, pattern);
    if op.kind != kind || op.pattern != pattern {
      assert after == tags;
    } else {
      match op
      case Add(_, _, t) =>
        if t in tags {
          assert after == tags;
        } else {
          assert after == Sort(leq, tags + [t]);
          SortInsertsTag(leq, tags, t);
          SortSorted(leq, tags + [t]);
        }
      case Remove(_, _, t) =>
        if t in tags {
          assert after == Filter(Other(t), tags);
          FilterTidy(leq, Other(t), tags);
        } else {
          assert after == tags;
        }
      case RemovePattern(_, _) =>
        assert after == [];
    }
  }

  /** Over any run, each list stays sorted and duplicate-free and holds what a set would. */
  lemma {:induction false} RunEffects(leq: Order, c: Conf, ops: seq<Op>, kind: string, pattern: string)
    requires TotalPreorder(leq) && TidyList(leq, GetTags(c, kind, pattern))
    ensures TidyList(leq, GetTags(Run(leq, c, ops), kind, pattern))
    ensures forall t :: Has(Run(leq, c, ops), kind, pattern, t) <==>
                        Effects(ops, kind, pattern, t, Has(c, kind, pattern, t))
    decreases |ops|
  {
    if ops != [] {
      var before := ops[..|ops| - 1];
      RunEffects(leq, c, before, kind, pattern);
      ApplyEffect(leq, Run(leq, c, before), ops[|ops| - 1], kind, pattern);
    }
  }

  /** With no comparison given, the tags of a pattern are in alphabetical order after any run. */
  lemma {:induction false} DefaultTagsAscend(c: Conf, ops: seq<Op>, kind: string, pattern: string, i: nat, j: nat)
    requires TidyList(StringLeq, GetTags(c, kind, pattern))
    requires i < j < |GetTags(Run(StringLeq, c, ops), kind, pattern)|
    ensures var tags := GetTags(Run(StringLeq, c, ops), kind, pattern);
            tags[i] != tags[j] && Alphabetical(tags[i], tags[j])
  {
    var tags := GetTags(Run(StringLeq, c, ops), kind, pattern);
    StringOrder();
    RunEffects(StringLeq, c, ops, kind, pattern);
    StringLeqMeaning(tags[i], tags[j]);
  }

  // ----- adding a tag and taking it away again

  /** The lists that a sort leaves alone. */
  lemma {:induction false} SortFixedIff(leq: Order, s: seq<string>)
    requires TotalPreorder(leq)
    ensures Sort(leq, s) == s <==> Sorted(leq, s)
  {
    SortSorted(leq, s);
    if Sorted(leq, s) {
      SortFixed(leq, s);
    }
  }

  /** What is left of a kind after a new tag came and went. */
  function CameAndWent(patterns: map<string, TagList>, pattern: string, left: seq<string>): map<string, TagList> {
    if left == [] then patterns - {pattern} else patterns[pattern := Value(left)]
  }

  lemma {:induction false} RemoveFrom(c: Conf, kind: string, pattern: string, tag: string, tags: seq<string>)
    requires tag in tags
    ensures var patterns, left := PatternsOf(c, kind), Filter(Other(tag), tags);
            Removed(c[kind := Value(patterns[pattern := Value(tags)])], kind, pattern, tag)
            == c[kind := Value(CameAndWent(patterns, pattern, left))]
  {
    var patterns, left := PatternsOf(c, kind), Filter(Other(tag), tags);
    var mid := c[kind := Value(patterns[pattern := Value(tags)])];
    assert GetTags(mid, kind, pattern) == tags;
    assert PatternsOf(mid, kind) - {pattern} == patterns - {pattern};
    assert PatternsOf(mid, kind)[pattern := Value(left)] == patterns[pattern := Value(left)];
  }

  lemma {:induction false} AddRemoveResult(leq: Order, c: Conf, kind: string, pattern: string, tag: string)
    requires TotalPreorder(leq) && !Has(c, kind, pattern, tag)
    ensures Removed(Added(leq, c, kind, pattern, tag), kind, pattern, tag)
         == c[kind := Value(CameAndWent(PatternsOf(c, kind), pattern, Sort(leq, GetTags(c, kind, pattern))))]
  {
    var tags := GetTags(c, kind, pattern);
    SortInsertsTag(leq, tags, tag);
    SortInDropOut(leq, tags, tag);
    RemoveFrom(c, kind, pattern, tag, Sort(leq, tags + [tag]));
  }

  lemma {:induction false} CameAndWentIff(patterns: map<string, TagList>, pattern: string, left: seq<string>)
    requires |left| == |TagsIn(patterns, pattern)|
    ensures CameAndWent(patterns, pattern, left) == patterns
       <==> pattern in patterns ==> patterns[pattern].Value? && patterns[pattern].value != [] && left == patterns[pattern].value
  {
    if pattern !in patterns {
      assert patterns - {pattern} == patterns;
    } else {
      assert pattern !in patterns - {pattern};
      assert patterns[pattern := Value(left)][pattern] == Value(left);
      if patterns[pattern] == Value(left) {
        assert patterns[pattern := Value(left)] == patterns;
      }
    }
  }

  /** Adding a new tag and removing it restores the configuration exactly when the kind maps to a
      mapping already and the pattern is absent from it or has a nonempty, sorted list. */
  lemma {:induction false} AddThenRemove(leq: Order, c: Conf, kind: string, pattern: string, tag: string)
    requires TotalPreorder(leq) && !Has(c, kind, pattern, tag)
    ensures Removed(Added(leq, c, kind, pattern, tag), kind, pattern, tag) == c
       <==> && kind in c && c[kind].Value?
            && (pattern in c[kind].value ==>
                  && c[kind].value[pattern].Value?
                  && c[kind].value[pattern].value != []
                  && Sorted(leq, c[kind].value[pattern].value))
  {
    var patterns, left := PatternsOf(c, kind), Sort(leq, GetTags(c, kind, pattern));
    AddRemoveResult(leq, c, kind, pattern, tag);
    SortFixedIff(leq, GetTags(c, kind, pattern));
    SameElements(left, GetTags(c, kind, pattern));
    CameAndWentIff(patterns, pattern, left);
    var after := c[kind := Value(CameAndWent(patterns, pattern, left))];
    assert after[kind] == Value(CameAndWent(patterns, pattern, left));
    if kind in c && c[kind] == after[kind] {
      assert after == c;
    }
  }

  // ----- what a modified store means

  /** On any store an operation changes something exactly when it has a tag to add or to drop, or a
      pattern to drop: `add_tag` and `remove_tag` report just that. */
  lemma {:induction false} ChangesIff(leq: Order, c: Conf, op: Op)
    ensures Apply(leq, c, op) != c <==>
              match op
              case Add(k, p, t) => !Has(c, k, p, t)
              case Remove(k, p, t) => Has(c, k, p, t)
              case RemovePattern(k, p) => p in PatternsOf(c, k)
  {
    var k, p, tags := op.kind, op.pattern, GetTags(c, op.kind, op.pattern);
    match op
    case Add(_, _, t) =>
      if t in tags {
        assert PatternsOf(c, k)[p := Value(tags)] == PatternsOf(c, k);
        assert Added(leq, c, k, p, t) == c;
      } else {
        assert GetTags(Added(leq, c, k, p, t), k, p) == Sort(leq, tags + [t]);
        SortInsertsTag(leq, tags, t);
      }
    case Remove(_, _, t) =>
      if t in tags {
        assert GetTags(Removed(c, k, p, t), k, p) == Filter(Other(t), tags);
      }
    case RemovePattern(_, _) =>
      if p in PatternsOf(c, k) {
        assert p !in PatternsOf(PatternRemoved(c, k, p), k);
      }
  }

  ghost predicate NeatList(leq: Order, tags: TagList) {
    tags.Value? && tags.value != [] && TidyList(leq, tags.value)
  }

  /** A mapping whose lists are sorted, duplicate-free and not empty. */
  ghost predicate NeatKind(leq: Order, patterns: Patterns) {
    patterns.Value? && forall p :: p in patterns.value ==> NeatList(leq, patterns.value[p])
  }

  ghost predicate Neat(leq: Order, c: Conf) {
    forall k :: k in c ==> NeatKind(leq, c[k])
  }

  lemma {:induction false} NeatTags(leq: Order, c: Conf, kind: string, pattern: string)
    requires Neat(leq, c)
    ensures TidyList(leq, GetTags(c, kind, pattern))
    ensures pattern in PatternsOf(c, kind) <==> GetTags(c, kind, pattern) != []
  {
  }

  lemma {:induction false} ApplyList(leq: Order, c: Conf, op: Op)
    requires TotalPreorder(leq) && TidyList(leq, GetTags(c, op.kind, op.pattern))
    ensures var patterns := PatternsOf(Apply(leq, c, op), op.kind);
            op.pattern in patterns && !(op.pattern in PatternsOf(c, op.kind) && patterns == PatternsOf(c, op.kind)) ==>
            NeatList(leq, patterns[op.pattern])
  {
    ApplyEffect(leq, c, op, op.kind, op.pattern);
    match op
    case Add(k, p, t) => assert Has(Apply(leq, c, op), k, p, t);
    case _ =>
  }

  lemma {:induction false} ApplyElsewhere(leq: Order, c: Conf, op: Op, p: string)
    requires p != op.pattern && p in PatternsOf(Apply(leq, c, op), op.kind)
    ensures p in PatternsOf(c, op.kind) && PatternsOf(Apply(leq, c, op), op.kind)[p] == PatternsOf(c, op.kind)[p]
  {
  }

  lemma {:induction false} ApplyNeatKind(leq: Order, c: Conf, op: Op)
    requires TotalPreorder(leq) && Neat(leq, c) && op.kind in Apply(leq, c, op)
    ensures NeatKind(leq, Apply(leq, c, op)[op.kind])
  {
    var was, now := PatternsOf(c, op.kind), PatternsOf(Apply(leq, c, op), op.kind);
    NeatTags(leq, c, op.kind, op.pattern);
    ApplyList(leq, c, op);
    assert op.kind in c ==> NeatKind(leq, c[op.kind]);
    assert Apply(leq, c, op)[op.kind] == Value(now);
    forall p | p in now ensures NeatList(leq, now[p]) {
      if p != op.pattern {
        ApplyElsewhere(leq, c, op, p);
      }
    }
  }

  lemma {:induction false} ApplyNeat(leq: Order, c: Conf, op: Op)
    requires TotalPreorder(leq) && Neat(leq, c)
    ensures Neat(leq, Apply(leq, c, op))
  {
    var after := Apply(leq, c, op);
    forall k | k in after ensures NeatKind(leq, after[k]) {
      if k == op.kind {
        ApplyNeatKind(leq, c, op);
      } else {
        assert after[k] == c[k];
      }
    }
  }

  lemma {:induction false} RunNeat(leq: Order, c: Conf, ops: seq<Op>)
    requires TotalPreorder(leq) && Neat(leq, c)
    ensures Neat(leq, Run(leq, c, ops))
    decreases |ops|
  {
    if ops != [] {
      RunNeat(leq, c, ops[..|ops| - 1]);
      ApplyNeat(leq, Run(leq, c, ops[..|ops| - 1]), ops[|ops| - 1]);
    }
  }

  /** A tag was added under this kind. */
  ghost predicate AddsTo(ops: seq<Op>, kind: string) {
    exists i :: 0 <= i < |ops| && ops[i].Add? && ops[i].kind == kind
  }

  lemma {:induction false} AddsToSnoc(ops: seq<Op>, op: Op, kind: string)
    ensures AddsTo(ops + [op], kind) <==> AddsTo(ops, kind) || (op.Add? && op.kind == kind)
  {
    var all := ops + [op];
    if AddsTo(ops, kind) {
      var i :| 0 <= i < |ops| && ops[i].Add? && ops[i].kind == kind;
      assert all[i] == ops[i];
    }
    assert all[|ops|] == op;
  }

  lemma {:induction false} ApplyKinds(leq: Order, c: Conf, op: Op, kind: string)
    ensures kind in Apply(leq, c, op) <==> kind in c || (op.Add? && op.kind == kind)
  {
  }

  lemma {:induction false} RunKinds(leq: Order, c: Conf, ops: seq<Op>, kind: string)
    ensures kind in Run(leq, c, ops) <==> kind in c || AddsTo(ops, kind)
    decreases |ops|
  {
    if ops != [] {
      var before, op := ops[..|ops| - 1], ops[|ops| - 1];
      RunKinds(leq, c, before, kind);
      ApplyKinds(leq, Run(leq, c, before), op, kind);
      AddsToSnoc(before, op, kind);
      assert ops == before + [op];
    }
  }

  lemma {:induction false} TidyUnique(leq: Order, a: seq<string>, b: seq<string>)
    requires Antisymmetric(leq) && TidyList(leq, a) && TidyList(leq, b) && forall t :: t in a <==> t in b
    ensures a == b
  {
    forall t ensures multiset(a)[t] == multiset(b)[t] {
      CountDistinct(a, t);
      CountDistinct(b, t);
      assert t in multiset(a) <==> t in a;
      assert t in multiset(b) <==> t in b;
    }
    SortedUnique(leq, a, b);
  }

  /** Neat stores are determined by their kinds and by which tags they have. */
  lemma {:induction false} NeatUnique(leq: Order, c: Conf, d: Conf)
    requires Antisymmetric(leq) && Neat(leq, c) && Neat(leq, d) && c.Keys == d.Keys
    requires forall k, p, t :: Has(c, k, p, t) <==> Has(d, k, p, t)
    ensures c == d
  {
    forall k, p ensures GetTags(c, k, p) == GetTags(d, k, p) {
      NeatTags(leq, c, k, p);
      NeatTags(leq, d, k, p);
      forall t ensures t in GetTags(c, k, p) <==> t in GetTags(d, k, p) {
        assert Has(c, k, p, t) <==> Has(d, k, p, t);
      }
      TidyUnique(leq, GetTags(c, k, p), GetTags(d, k, p));
    }
    forall k | k in c ensures c[k] == d[k] {
      NeatKindUnique(leq, c, d, k);
    }
  }

  lemma {:induction false} NeatKindUnique(leq: Order, c: Conf, d: Conf, k: string)
    requires Neat(leq, c) && Neat(leq, d) && k in c && k in d
    requires forall p :: GetTags(c, k, p) == GetTags(d, k, p)
    ensures c[k] == d[k]
  {
    var x, y := PatternsOf(c, k), PatternsOf(d, k);
    forall p ensures (p in x <==> p in y) && (p in x ==> x[p] == y[p]) {
      NeatTags(leq, c, k, p);
      NeatTags(leq, d, k, p);
      assert GetTags(c, k, p) == GetTags(d, k, p);
    }
    assert x == y;
  }

  /** The changes that make a store count as modified. */
  ghost predicate Changed(c: Conf, ops: seq<Op>) {
    || (exists k :: k !in c && AddsTo(ops, k))
    || (exists k, p, t :: Effects(ops, k, p, t, Has(c, k, p, t)) != Has(c, k, p, t))
  }

  /** After any run on a neat store it counts as modified exactly when a tag was added under a kind
      that was not there, or some tag is now present that was absent or the other way round. */
  lemma {:induction false} ModifiedIff(leq: Order, c: Conf, ops: seq<Op>)
    requires TotalPreorder(leq) && Antisymmetric(leq) && Neat(leq, c)
    ensures Run(leq, c, ops) != c <==> Changed(c, ops)
  {
    var after := Run(leq, c, ops);
    RunNeat(leq, c, ops);
    forall k ensures k in after <==> k in c || AddsTo(ops, k) { RunKinds(leq, c, ops, k); }
    forall k, p, t ensures Has(after, k, p, t) <==> Effects(ops, k, p, t, Has(c, k, p, t)) {
      NeatTags(leq, c, k, p);
      RunEffects(leq, c, ops, k, p);
    }
    if (forall k :: AddsTo(ops, k) ==> k in c) &&
       (forall k, p, t :: Effects(ops, k, p, t, Has(c, k, p, t)) == Has(c, k, p, t)) {
      assert after.Keys == c.Keys;
      NeatUnique(leq, after, c);
    }
  }

  /** The same with the order of strings, which is the one used when none is given. */
  lemma {:induction false} ModifiedByDefaultOrder(c: Conf, ops: seq<Op>)
    requires Neat(StringLeq, c)
    ensures Run(StringLeq, c, ops) != c <==> Changed(c, ops)
  {
    StringOrder();
    ModifiedIff(StringLeq, c, ops);
  }

  /** A run of the class from a neat store, and what it says of itself at the end. */
  method ModifiedAfter(conf: Conf, leq: Order, ops: seq<Op>) returns (modified: bool)
    requires TotalPreorder(leq) && Antisymmetric(leq) && Neat(leq, conf)
    ensures modified <==> Changed(conf, ops)
  {
    var config := new TagsConfig(conf, leq);
    for i := 0 to |ops|
      invariant config.leq == leq && config.confCopy == conf && fresh(config)
      invariant config.conf == Run(leq, conf, ops[..i])
    {
      assert ops[..i + 1][..i] == ops[..i];
      match ops[i] {
        case Add(k, p, t) => var _ := config.AddTag(k, p, t);
        case Remove(k, p, t) => var _ := config.RemoveTag(k, p, t);
        case RemovePattern(k, p) => config.RemoveTestPattern(k, p);
      }
    }
    assert ops[..|ops|] == ops;
    modified := config.IsModified();
    ModifiedIff(leq, conf, ops);
  }
}
