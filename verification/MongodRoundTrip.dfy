/** Exactly which option maps come back when they are printed and parsed. The argument weighs texts:
    splitting and parsing never gain characters, and lose some wherever something goes wrong. */
module MongodRoundTrip {
  import opened Wrappers
  import opened Sorting
  import opened MongodOptions
  import opened ShellSplit

  // ----- the weight of options

  function Weight(name: string, o: Setting): nat {
    |o.form| + |name| + 1 + if o.value.Some? then |o.value.value| + 1 else 0
  }

  function WeightAt(options: Options, name: string): nat {
    if name in options then Weight(name, options[name]) else 0
  }

  /** The weight of the options that are listed. */
  function Sum(order: seq<string>, options: Options): nat {
    if order == [] then 0 else WeightAt(options, order[0]) + Sum(order[1..], options)
  }

  lemma {:induction false} SumElsewhere(order: seq<string>, options: Options, name: string, o: Setting)
    requires name !in order
    ensures Sum(order, options[name := o]) == Sum(order, options)
  {
    if order != [] {
      SumElsewhere(order[1..], options, name, o);
    }
  }

  lemma {:induction false} SumUpdate(order: seq<string>, options: Options, name: string, o: Setting)
    requires Distinct(order)
    ensures Sum(order, options[name := o])
         == Sum(order, options) + if name in order then Weight(name, o) - WeightAt(options, name) else 0
  {
    if order != [] {
      if order[0] == name {
        assert name !in order[1..];
        SumElsewhere(order[1..], options, name, o);
      } else {
        SumUpdate(order[1..], options, name, o);
      }
    }
  }

  // ----- a step gains no more than its word

  /** The option that a word with a dash sets. */
  function NameIn(w: string): string
    requires |w| > 1
  {
    var idx := if w[1] == '-' then 2 else 1;
    match FindEq(w, idx)
    case None => w[idx..]
    case Some(eq) => w[idx..eq]
  }

  function SettingIn(w: string): Setting
    requires |w| > 1
  {
    var idx := if w[1] == '-' then 2 else 1;
    match FindEq(w, idx)
    case None => Setting(None, w[..idx])
    case Some(eq) => Setting(Some(w[eq + 1..]), w[..idx])
  }

  lemma {:induction false} DashStep(p: Parse, w: string)
    requires p.Parse? && |w| > 1 && w[0] == '-'
    ensures var name, o := NameIn(w), SettingIn(w);
            && Step(p, w) == Parse(p.options[name := o], if o.value.Some? then Closed else Open(name), o.form)
            && Weight(name, o) == |w| + 1
  {
  }

  /** The option a value would go to is set, in the form last seen. */
  ghost predicate PendingSet(p: Parse)
    requires p.Parse?
  {
    p.pending.Open? ==> p.pending.name in p.options && p.options[p.pending.name].form == p.form
  }

  lemma {:induction false} StepWeight(order: seq<string>, p: Parse, w: string)
    requires Distinct(order) && p.Parse? && PendingSet(p) && Step(p, w).Parse?
    ensures PendingSet(Step(p, w))
    ensures Sum(order, Step(p, w).options) <= Sum(order, p.options) + |w| + 1
  {
    if w != [] && w[0] == '-' {
      DashStep(p, w);
      SumUpdate(order, p.options, NameIn(w), SettingIn(w));
    } else if p.pending.Open? && p.pending.name != [] {
      SumUpdate(order, p.options, p.pending.name, Setting(Some(w), p.form));
    }
  }

  lemma {:induction false} StepsWeight(order: seq<string>, words: seq<string>)
    requires Distinct(order) && Steps(START, words).Parse?
    ensures PendingSet(Steps(START, words))
    ensures Sum(order, Steps(START, words).options) <= Width(words)
    decreases |words|
  {
    if words == [] {
      SumOfNothing(order);
    } else {
      var k := |words| - 1;
      StepsWeight(order, words[..k]);
      StepWeight(order, Steps(START, words[..k]), words[k]);
      WidthSnoc(words);
    }
  }

  lemma {:induction false} SumOfNothing(order: seq<string>)
    ensures Sum(order, map[]) == 0
  {
    if order != [] {
      SumOfNothing(order[1..]);
    }
  }

  // ----- nothing was lost

  /** Every character of the words has ended up in the options. */
  ghost predicate Tight(order: seq<string>, words: seq<string>) {
    Steps(START, words).Parse? && Sum(order, Steps(START, words).options) == Width(words)
  }

  lemma {:induction false} TightPrefix(order: seq<string>, words: seq<string>, k: nat)
    requires Distinct(order) && Tight(order, words) && k <= |words|
    ensures Tight(order, words[..k])
    decreases |words|
  {
    if k == |words| {
      assert words[..k] == words;
    } else {
      var n := |words| - 1;
      StepsWeight(order, words[..n]);
      StepWeight(order, Steps(START, words[..n]), words[n]);
      WidthSnoc(words);
      TightPrefix(order, words[..n], k);
      assert words[..n][..k] == words[..k];
    }
  }

  /** The parser after the first `k` words. */
  ghost function Upto(words: seq<string>, k: nat): Parse
    requires k <= |words|
  {
    Steps(START, words[..k])
  }

  lemma {:induction false} AfterStep(order: seq<string>, words: seq<string>, k: nat)
    requires Distinct(order) && Tight(order, words) && k < |words|
    ensures Upto(words, k).Parse? && PendingSet(Upto(words, k))
    ensures Upto(words, k + 1).Parse? && Upto(words, k + 1) == Step(Upto(words, k), words[k])
    ensures Sum(order, Upto(words, k + 1).options) == Sum(order, Upto(words, k).options) + |words[k]| + 1
  {
    TightPrefix(order, words, k);
    TightPrefix(order, words, k + 1);
    StepsWeight(order, words[..k]);
    assert words[..k + 1][..k] == words[..k];
    WidthSnoc(words[..k + 1]);
  }

  /** Nothing is set twice, ... */
  lemma {:induction false} SetOnce(order: seq<string>, words: seq<string>, k: nat)
    requires Distinct(order) && Tight(order, words) && k < |words| && |words[k]| > 1 && words[k][0] == '-'
    ensures Upto(words, k).Parse? && NameIn(words[k]) !in Upto(words, k).options
  {
    AfterStep(order, words, k);
    DashStep(Upto(words, k), words[k]);
    SumUpdate(order, Upto(words, k).options, NameIn(words[k]), SettingIn(words[k]));
  }

  /** ... so an option without a value stays without one once a later option has been read. */
  ghost predicate LeftBare(p: Parse, name: string) {
    p.Parse? && name in p.options && p.options[name].value.None? && p.pending != Open(name)
  }

  lemma {:induction false} StaysLeft(order: seq<string>, words: seq<string>, k: nat, name: string)
    requires Distinct(order) && Tight(order, words) && k < |words| && LeftBare(Upto(words, k), name)
    ensures LeftBare(Upto(words, k + 1), name)
  {
    AfterStep(order, words, k);
    if words[k] != [] && words[k][0] == '-' {
      SetOnce(order, words, k);
      DashStep(Upto(words, k), words[k]);
    }
  }

  lemma {:induction false} LeftForGood(order: seq<string>, words: seq<string>, k: nat, name: string)
    requires Distinct(order) && Tight(order, words) && k <= |words| && LeftBare(Upto(words, k), name)
    ensures LeftBare(Steps(START, words), name)
    decreases |words| - k
  {
    if k == |words| {
      assert words[..k] == words;
    } else {
      StaysLeft(order, words, k, name);
      LeftForGood(order, words, k + 1, name);
    }
  }

  /** A value behind a flag belongs to a named option and does not look like an option itself. */
  lemma {:induction false} ValueRead(order: seq<string>, words: seq<string>, k: nat, name: string, form: string)
    requires Distinct(order) && Tight(order, words) && k + 1 < |words|
    requires ReadableFlag(name, form) && words[k] == form + name
    requires !LeftBare(Steps(START, words), name)
    ensures name != [] && (words[k + 1] != [] ==> words[k + 1][0] != '-')
  {
    var v := words[k + 1];
    AfterStep(order, words, k);
    AfterStep(order, words, k + 1);
    NameWord(Upto(words, k), name, form);
    if v != [] && v[0] == '-' {
      SetOnce(order, words, k + 1);
      DashStep(Upto(words, k + 1), v);
      assert LeftBare(Upto(words, k + 2), name);
      LeftForGood(order, words, k + 2, name);
    }
  }

  // ----- what parsing plain words can yield

  ghost predicate Shaped(name: string, o: Setting) {
    && Plain(name) && '=' !in name
    && (o.form == "--" || (o.form == "-" && (name != [] ==> name[0] != '-')))
    && (o.value.Some? ==> Plain(o.value.value))
  }

  ghost predicate AllShaped(p: Parse) {
    && p.Parse? && (forall n :: n in p.options ==> Shaped(n, p.options[n]))
    && (p.pending.Open? ==> Shaped(p.pending.name, Setting(None, p.form)))
  }

  lemma {:induction false} PlainSlice(w: string, i: nat, j: nat)
    requires Plain(w) && i <= j <= |w|
    ensures Plain(w[i..j])
  {
    assert forall c :: c in w[i..j] ==> c in w;
  }

  lemma {:induction false} NoEqBefore(s: string, i: nat)
    requires i <= |s|
    ensures var r := FindEq(s, i); r.Some? ==> forall k :: i <= k < r.value ==> s[k] != '='
    decreases |s| - i
  {
    if i < |s| && s[i] != '=' {
      NoEqBefore(s, i + 1);
    }
  }

  lemma {:induction false} DashShaped(w: string)
    requires Plain(w) && |w| > 1 && w[0] == '-'
    ensures Shaped(NameIn(w), SettingIn(w)) && Shaped(NameIn(w), Setting(None, SettingIn(w).form))
  {
    var idx := if w[1] == '-' then 2 else 1;
    NoEqBefore(w, idx);
    match FindEq(w, idx)
    case None =>
      PlainSlice(w, idx, |w|);
      assert w[idx..] == w[idx..|w|];
    case Some(eq) =>
      PlainSlice(w, idx, eq);
      PlainSlice(w, eq + 1, |w|);
      assert w[eq + 1..] == w[eq + 1..|w|];
  }

  lemma {:induction false} StepsShaped(words: seq<string>)
    requires AllPlain(words) && Steps(START, words).Parse?
    ensures AllShaped(Steps(START, words))
    decreases |words|
  {
    if words != [] {
      var k := |words| - 1;
      var p, w := Steps(START, words[..k]), words[k];
      StepsShaped(words[..k]);
      if w != [] && w[0] == '-' {
        DashStep(p, w);
        DashShaped(w);
      }
    }
  }

  lemma {:induction false} LoneDash(words: seq<string>, k: nat)
    requires k < |words| && words[k] == "-"
    ensures Steps(START, words).Error?
    decreases |words|
  {
    var n := |words| - 1;
    if k < n {
      LoneDash(words[..n], k);
    }
  }

  // ----- the weight of what is printed

  lemma {:induction false} SumSnoc(order: seq<string>, name: string, options: Options)
    ensures Sum(order + [name], options) == Sum(order, options) + WeightAt(options, name)
  {
    if order == [] {
      assert [name][1..] == [] && order + [name] == [name];
    } else {
      SumSnoc(order[1..], name, options);
      assert (order + [name])[1..] == order[1..] + [name];
    }
  }

  predicate EmptyValue(o: Setting) {
    o.value == Some("")
  }

  lemma {:induction false} WordsWidth(name: string, o: Setting)
    ensures Width(Words(name, o)) + (if EmptyValue(o) then 1 else 0) == Weight(name, o)
  {
    WidthOne(o.form + name);
    if o.value.Some? && o.value.value != [] {
      WidthAppend([o.form + name], [o.value.value]);
      WidthOne(o.value.value);
    }
  }

  /** What is printed weighs what the options do, less one for each empty value. */
  lemma {:induction false} PrintedWidth(order: seq<string>, m: Options)
    requires forall n :: n in order ==> n in m
    ensures Width(AllWords(order, m)) <= Sum(order, m)
    ensures Width(AllWords(order, m)) == Sum(order, m) ==> forall n :: n in order ==> !EmptyValue(m[n])
    decreases |order|
  {
    if order != [] {
      var k := |order| - 1;
      PrintedWidth(order[..k], m);
      WidthAppend(AllWords(order[..k], m), Words(order[k], m[order[k]]));
      WordsWidth(order[k], m[order[k]]);
      SumSnoc(order[..k], order[k], m);
      assert order == order[..k] + [order[k]];
    }
  }

  /** Where the words of an option stand. */
  lemma {:induction false} WordsAt(order: seq<string>, m: Options, name: string) returns (k: nat)
    requires (forall n :: n in order ==> n in m) && name in order
    ensures k < |AllWords(order, m)| && AllWords(order, m)[k] == m[name].form + name
    ensures m[name].value.Some? && m[name].value.value != [] ==>
              k + 1 < |AllWords(order, m)| && AllWords(order, m)[k + 1] == m[name].value.value
    decreases |order|
  {
    var n := |order| - 1;
    if order[n] == name {
      k := |AllWords(order[..n], m)|;
    } else {
      assert order == order[..n] + [order[n]];
      k := WordsAt(order[..n], m, name);
    }
  }

  // ----- the round trip

  ghost predicate ComesBack(order: seq<string>, m: Options)
    requires forall n :: n in order ==> n in m
  {
    Parsed(Spaced(AllWords(order, m))) == Some(m)
  }

  /** If the map comes back, nothing in the line was quoted and no value is empty. */
  lemma {:induction false} NothingLost(order: seq<string>, m: Options)
    requires Distinct(order) && (forall n :: n in order <==> n in m) && ComesBack(order, m)
    ensures NoQuoting(Spaced(AllWords(order, m))) && forall n :: n in m ==> !EmptyValue(m[n])
    ensures Tight(order, Split(Spaced(AllWords(order, m))).value)
  {
    var printed := AllWords(order, m);
    StepsWeight(order, Split(Spaced(printed)).value);
    LineWidth(printed);
    SpacedWidth(printed);
    PrintedWidth(order, m);
  }

  lemma {:induction false} OptionsShaped(order: seq<string>, m: Options)
    requires (forall n :: n in order ==> n in m) && ComesBack(order, m) && NoQuoting(Spaced(AllWords(order, m)))
    ensures forall n :: n in m ==> Shaped(n, m[n])
  {
    LexPlain(Spaced(AllWords(order, m)), Space, []);
    StepsShaped(Split(Spaced(AllWords(order, m))).value);
  }

  lemma {:induction false} ShapedWords(order: seq<string>, m: Options)
    requires forall n :: n in order ==> n in m && Shaped(n, m[n])
    ensures forall w :: w in AllWords(order, m) ==> Plain(w) && w != []
    decreases |order|
  {
    if order != [] {
      ShapedWords(order[..|order| - 1], m);
    }
  }

  lemma {:induction false} SplitAsPrinted(order: seq<string>, m: Options)
    requires forall n :: n in order ==> n in m && Shaped(n, m[n])
    ensures Split(Spaced(AllWords(order, m))) == Some(AllWords(order, m))
  {
    ShapedWords(order, m);
    LexSpaced(AllWords(order, m), Space, []);
    assert [] + AllWords(order, m) == AllWords(order, m);
  }

  lemma {:induction false} EachPrintable(order: seq<string>, m: Options, name: string)
    requires Distinct(order) && (forall n :: n in order <==> n in m && Shaped(n, m[n])) && name in order
    requires Tight(order, AllWords(order, m)) && Steps(START, AllWords(order, m)).options == m
    requires !EmptyValue(m[name])
    ensures Printable(name, m[name])
  {
    var words, o := AllWords(order, m), m[name];
    var k := WordsAt(order, m, name);
    if o.form == "-" && name == [] {
      assert words[k] == "-";
      LoneDash(words, k);
    }
    if o.value.Some? {
      ValueRead(order, words, k, name, o.form);
    }
  }

  /** A map comes back, in whatever order it is printed, exactly when each of its options is printable. */
  lemma {:induction false} ComesBackIff(order: seq<string>, m: Options)
    requires Distinct(order) && forall n :: n in order <==> n in m
    ensures ComesBack(order, m) <==> forall n :: n in m ==> Printable(n, m[n])
  {
    if forall n :: n in m ==> Printable(n, m[n]) {
      ParseUndoesPrint(order, m);
    }
    if ComesBack(order, m) {
      NothingLost(order, m);
      OptionsShaped(order, m);
      SplitAsPrinted(order, m);
      forall n | n in m ensures Printable(n, m[n]) { EachPrintable(order, m, n); }
    }
  }

  /** Printing and parsing give the map back just for those. */
  method PrintThenParse(order: seq<string>, m: Options) returns (r: Option<Options>)
    requires Distinct(order) && forall n :: n in order <==> n in m
    ensures r == Some(m) <==> forall n :: n in m ==> Printable(n, m[n])
  {
    var line := PrintOptions(order, m);
    r := ParseOptions(line);
    ComesBackIff(order, m);
  }
}
