/** What the option parser makes of any words: which option each word sets, and which setting lasts. */
module OptionMeaning {
  import opened Wrappers
  import opened MongodOptions
  import opened MongodRoundTrip

  predicate IsFlag(w: string) {
    w != [] && w[0] == '-'
  }

  predicate HasFlag(words: seq<string>, i: nat) {
    i < |words| && IsFlag(words[i])
  }

  // ----- flags

  /** How a flag is put together, with the value behind an equals sign if there is one. */
  function Assembled(name: string, o: Setting): string {
    o.form + name + if o.value.Some? then "=" + o.value.value else ""
  }

  /** Two dashes if the flag starts with two, and the name up to the first equals sign. */
  lemma {:induction false} FlagMeaning(w: string)
    requires IsFlag(w) && |w| > 1
    ensures var name, o := NameIn(w), SettingIn(w);
            && w == Assembled(name, o) && '=' !in name
            && o.form == (if w[1] == '-' then "--" else "-")
            && (o.value.None? ==> '=' !in w)
  {
    var idx := if w[1] == '-' then 2 else 1;
    NoEqBefore(w, idx);
    assert w[..idx] == if w[1] == '-' then "--" else "-";
    match FindEq(w, idx)
    case None =>
      assert w == w[..idx] + w[idx..] + "";
    case Some(eq) =>
      assert w == w[..idx] + w[idx..eq] + ("=" + w[eq + 1..]);
  }

  // ----- when parsing fails

  lemma {:induction false} UnsetAtStart(words: seq<string>)
    requires Steps(START, words).Parse?
    ensures Steps(START, words).pending.Unset? <==> words == []
    decreases |words|
  {
    if words != [] {
      var k := |words| - 1;
      UnsetAtStart(words[..k]);
      if IsFlag(words[k]) {
        DashStep(Steps(START, words[..k]), words[k]);
      }
    }
  }

  lemma {:induction false} FailsSnoc(init: seq<string>, w: string)
    requires Steps(START, init).Parse?
    ensures Step(Steps(START, init), w).Error? <==> w == "-" || (init == [] && !IsFlag(w))
  {
    UnsetAtStart(init);
    if IsFlag(w) && |w| > 1 {
      DashStep(Steps(START, init), w);
    } else if IsFlag(w) {
      assert w == "-";
    }
  }

  lemma {:induction false} InSnoc(words: seq<string>, x: string)
    requires words != []
    ensures x in words <==> x in words[..|words| - 1] || words[|words| - 1] == x
  {
    assert words == words[..|words| - 1] + [words[|words| - 1]];
  }

  /** Parsing words fails exactly when one is a lone dash or the first is no flag. */
  lemma {:induction false} FailsIff(words: seq<string>)
    ensures Steps(START, words).Error? <==> "-" in words || (words != [] && !IsFlag(words[0]))
    decreases |words|
  {
    if words != [] {
      var k := |words| - 1;
      var init, w := words[..k], words[k];
      FailsIff(init);
      InSnoc(words, "-");
      assert init != [] ==> words[0] == init[0];
      if Steps(START, init).Parse? {
        FailsSnoc(init, w);
      }
    }
  }

  // ----- which option a value goes to

  /** No flag from `i` up to, but without, `e`. */
  predicate NoFlags(words: seq<string>, i: nat, e: nat) {
    forall k :: i <= k < e && k < |words| ==> !IsFlag(words[k])
  }

  lemma {:induction false} NoLoneDash(words: seq<string>, i: nat)
    requires Steps(START, words).Parse? && HasFlag(words, i)
    ensures |words[i]| > 1
  {
    FailsIff(words);
    var w := words[i];
    assert w in words && w != "-";
    assert w == "-" + w[1..];
  }

  lemma {:induction false} ParsePrefix(words: seq<string>)
    requires Steps(START, words).Parse? && words != []
    ensures Steps(START, words[..|words| - 1]).Parse?
  {
  }

  /** Values belong to the last flag, if it has none already. */
  lemma {:induction false} PendingMeaning(words: seq<string>, f: nat)
    requires Steps(START, words).Parse? && HasFlag(words, f) && NoFlags(words, f + 1, |words|)
    ensures |words[f]| > 1
    ensures var p, o := Steps(START, words), SettingIn(words[f]);
            p.form == o.form && p.pending == if o.value.Some? then Closed else Open(NameIn(words[f]))
    decreases |words|
  {
    var k := |words| - 1;
    NoLoneDash(words, f);
    ParsePrefix(words);
    if f == k {
      DashStep(Steps(START, words[..k]), words[k]);
    } else {
      assert words[..k][f] == words[f];
      PendingMeaning(words[..k], f);
    }
  }

  /** The word sets the option. */
  predicate Names(words: seq<string>, i: nat, name: string) {
    HasFlag(words, i) && |words[i]| > 1 && NameIn(words[i]) == name
  }

  ghost predicate Named(words: seq<string>, name: string) {
    exists i: nat :: Names(words, i, name)
  }

  lemma {:induction false} NamedSnoc(words: seq<string>, name: string)
    requires words != []
    ensures Named(words, name) <==> Named(words[..|words| - 1], name) || Names(words, |words| - 1, name)
  {
    var k := |words| - 1;
    if Named(words, name) {
      var i: nat :| Names(words, i, name);
      assert i < k ==> Names(words[..k], i, name);
    }
    if Named(words[..k], name) {
      var i: nat :| Names(words[..k], i, name);
      assert Names(words, i, name);
    }
  }

  /** The options are those that some flag names. */
  lemma {:induction false} OptionsNamed(words: seq<string>, name: string)
    requires Steps(START, words).Parse?
    ensures name in Steps(START, words).options <==> Named(words, name)
    decreases |words|
  {
    if words != [] {
      var k := |words| - 1;
      ParsePrefix(words);
      OptionsNamed(words[..k], name);
      NamedSnoc(words, name);
      StepNames(words, name);
    }
  }

  lemma {:induction false} StepNames(words: seq<string>, name: string)
    requires Steps(START, words).Parse? && words != []
    ensures name in Steps(START, words).options <==>
            name in Steps(START, words[..|words| - 1]).options || Names(words, |words| - 1, name)
  {
    var k := |words| - 1;
    var p := Steps(START, words[..k]);
    if IsFlag(words[k]) {
      NoLoneDash(words, k);
      DashStep(p, words[k]);
    } else {
      PendingIsOption(words[..k]);
    }
  }

  lemma {:induction false} PendingIsOption(words: seq<string>)
    requires Steps(START, words).Parse?
    ensures var p := Steps(START, words); p.pending.Open? ==> p.pending.name in p.options
  {
    StepsWeight([], words);
  }

  // ----- which setting lasts

  /** The last flag that names the option is word `i`, and the words up to `e` are its values. */
  ghost predicate LastSetting(words: seq<string>, name: string, i: nat, e: nat) {
    && Names(words, i, name) && (forall k: nat :: Names(words, k, name) ==> k <= i)
    && i < e <= |words| && NoFlags(words, i + 1, e) && (e < |words| ==> IsFlag(words[e]))
  }

  /** The flag's own value, or the last of the values behind it; none if there are none, or no name. */
  function Lasting(words: seq<string>, name: string, i: nat, e: nat): Setting
    requires i < e <= |words| && |words[i]| > 1
  {
    var o := SettingIn(words[i]);
    if o.value.Some? || e == i + 1 || name == [] then o else Setting(Some(words[e - 1]), o.form)
  }

  lemma {:induction false} LastFlag(words: seq<string>, e: nat) returns (f: nat)
    requires HasFlag(words, e)
    ensures e <= f && HasFlag(words, f) && NoFlags(words, f + 1, |words|)
    decreases |words| - e
  {
    if NoFlags(words, e + 1, |words|) {
      return e;
    }
    var k :| e + 1 <= k < |words| && IsFlag(words[k]);
    f := LastFlag(words, k);
  }

  /** A word that belongs to another option leaves this one alone. */
  lemma {:induction false} ElsewhereKept(words: seq<string>, name: string, i: nat, e: nat)
    requires Steps(START, words).Parse? && LastSetting(words, name, i, e) && e < |words| && i < |words| - 1
    requires name in Steps(START, words[..|words| - 1]).options
    ensures name in Steps(START, words).options
    ensures Steps(START, words).options[name] == Steps(START, words[..|words| - 1]).options[name]
  {
    var k := |words| - 1;
    var init, w := words[..k], words[k];
    ParsePrefix(words);
    if IsFlag(w) {
      NoLoneDash(words, k);
      DashStep(Steps(START, init), w);
      assert !Names(words, k, name);
    } else {
      assert HasFlag(init, e) by { assert init[e] == words[e]; }
      var f := LastFlag(init, e);
      PendingMeaning(init, f);
      assert init[f] == words[f];
      assert Names(words, f, NameIn(words[f]));
      assert !Names(words, f, name);
    }
  }

  lemma {:induction false} LastShorter(words: seq<string>, name: string, i: nat, e: nat)
    requires LastSetting(words, name, i, e) && i < |words| - 1
    ensures LastSetting(words[..|words| - 1], name, i, if e < |words| then e else e - 1)
  {
    var k := |words| - 1;
    var init := words[..k];
    assert init[i] == words[i];
    forall j: nat | Names(init, j, name) ensures j <= i {
      assert Names(words, j, name);
    }
    assert forall j :: 0 <= j < k ==> init[j] == words[j];
  }

  /** Of all the words, the last flag that names an option decides its form, and its own value or else
      the last value behind it, before the next flag, its value. */
  lemma {:induction false} SettingMeaning(words: seq<string>, name: string, i: nat, e: nat)
    requires Steps(START, words).Parse? && LastSetting(words, name, i, e)
    ensures name in Steps(START, words).options
    ensures Steps(START, words).options[name] == Lasting(words, name, i, e)
    decreases |words|
  {
    var k := |words| - 1;
    var init, w := words[..k], words[k];
    ParsePrefix(words);
    if i == k {
      DashStep(Steps(START, init), w);
    } else {
      var e' := if e < |words| then e else e - 1;
      LastShorter(words, name, i, e);
      SettingMeaning(init, name, i, e');
      assert init[i] == words[i];
      if e < |words| {
        ElsewhereKept(words, name, i, e);
        assert e - 1 > i ==> init[e - 1] == words[e - 1];
      } else {
        assert NoFlags(init, i + 1, |init|) by { assert forall j :: 0 <= j < k ==> init[j] == words[j]; }
        PendingMeaning(init, i);
      }
    }
  }
}
