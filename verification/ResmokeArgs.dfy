/** Reading and rewriting `--name=value` in a resmoke argument string. Characters are ASCII. */
module ResmokeArgs {
  import opened Wrappers

  /** `MoreThanOne` is the exception raised when the argument occurs more than once. */
  datatype Result<+T> = Ok(value: T) | MoreThanOne

  predicate IsWord(c: char) {
    'a' <= c <= 'z' || 'A' <= c <= 'Z' || '0' <= c <= '9' || c == '_'
  }

  predicate IsSpace(c: char) {
    c == ' ' || 9 <= c as int <= 13 || 28 <= c as int <= 31
  }

  predicate IsSeparator(c: char) { c == '=' || IsSpace(c) }

  /** The characters of the value class: word characters, parentheses, plus and comma. */
  predicate IsValueChar(c: char) {
    IsWord(c) || c == '(' || c == ')' || c == '+' || c == ','
  }

  /** A character that the pattern takes as it is and that does not end a name. */
  predicate IsNameChar(c: char) {
    !IsSeparator(c) && c !in ".^$*+?{}[]\\|()"
  }

  predicate IsName(name: string) { forall c :: c in name ==> IsNameChar(c) }

  predicate IsValue(v: string) { |v| > 0 && forall c :: c in v ==> IsValueChar(c) }

  // ----- the regular expression

  /** Where the value of a match at `i` begins. */
  function ValueStart(name: string, i: nat): nat { i + |name| + 3 }

  /** A match begins here: the flag, one separator and at least one value character. */
  predicate MatchAt(s: string, name: string, i: nat) {
    && ValueStart(name, i) < |s|
    && s[i] == '-' && s[i + 1] == '-' && s[i + 2..i + 2 + |name|] == name
    && IsSeparator(s[i + 2 + |name|]) && IsValueChar(s[ValueStart(name, i)])
  }

  /** The end of the run of value characters from `i` on. */
  function RunEnd(s: string, i: nat): (e: nat)
    requires i <= |s|
    ensures i <= e <= |s| && (e < |s| ==> !IsValueChar(s[e]))
    ensures forall k :: i <= k < e ==> IsValueChar(s[k])
    decreases |s| - i
  {
    if i < |s| && IsValueChar(s[i]) then RunEnd(s, i + 1) else i
  }

  function MatchEnd(s: string, name: string, i: nat): (e: nat)
    requires MatchAt(s, name, i)
    ensures ValueStart(name, i) < e <= |s|
  {
    RunEnd(s, ValueStart(name, i))
  }

  /** The starts of the matches found from left to right, each search going on after the last match. */
  function FindAll(s: string, name: string, from: nat): (r: seq<nat>)
    ensures forall k :: 0 <= k < |r| ==> MatchAt(s, name, r[k])
    decreases |s| - from
  {
    if from >= |s| then []
    else if MatchAt(s, name, from) then [from] + FindAll(s, name, MatchEnd(s, name, from))
    else FindAll(s, name, from + 1)
  }

  function GetArg(s: string, name: string): Result<Option<string>> {
    var m := FindAll(s, name, 0);
    if m == [] then Ok(None)
    else if |m| > 1 then MoreThanOne
    else Ok(Some(s[ValueStart(name, m[0])..MatchEnd(s, name, m[0])]))
  }

  predicate OccursAt(s: string, what: string, i: nat) {
    i + |what| <= |s| && s[i..i + |what|] == what
  }

  /** Every occurrence of `what`, from left to right, becomes `with`. */
  function Replace(s: string, what: string, with: string, i: nat): string
    requires |what| > 0 && i <= |s|
    decreases |s| - i
  {
    if i + |what| > |s| then s[i..]
    else if OccursAt(s, what, i) then with + Replace(s, what, with, i + |what|)
    else [s[i]] + Replace(s, what, with, i + 1)
  }

  function Setting(name: string, value: string): string {
    "--" + name + "=" + value
  }

  function SetArg(s: string, name: string, value: string): Result<string> {
    var m := FindAll(s, name, 0);
    if |m| > 1 then MoreThanOne
    else if |m| == 1 then
      Ok(Replace(s, s[m[0]..MatchEnd(s, name, m[0])], Setting(name, value), 0))
    else Ok(s + " " + Setting(name, value))
  }

  // ----- matches do not overlap

  ghost predicate OnlyMatch(s: string, name: string, i: nat) {
    MatchAt(s, name, i) && forall j :: MatchAt(s, name, j) ==> j == i
  }

  ghost predicate NoMatch(s: string, name: string, from: nat) {
    forall j :: j >= from ==> !MatchAt(s, name, j)
  }

  function Flag(name: string): string { "--" + name }

  /** The flag of one name is the end of the longer flag of another. */
  predicate Inside(name: string, other: string) {
    |name| < |other| && Flag(other)[|other| - |name|..] == Flag(name)
  }

  /** Names whose flags cannot be mistaken for one another. */
  predicate Apart(name: string, other: string) {
    name != other && !Inside(name, other) && !Inside(other, name)
  }

  lemma {:induction false} FlagAt(s: string, name: string, i: nat)
    requires MatchAt(s, name, i)
    ensures s[i..i + 2 + |name|] == Flag(name)
  {
    assert s[i..i + 2 + |name|] == [s[i], s[i + 1]] + s[i + 2..i + 2 + |name|];
  }

  lemma {:induction false} FlagChar(s: string, name: string, i: nat, k: nat)
    requires IsName(name) && MatchAt(s, name, i) && i <= k < i + 2 + |name|
    ensures !IsSeparator(s[k])
  {
    if k >= i + 2 {
      assert s[i + 2..i + 2 + |name|][k - i - 2] == s[k] && name[k - i - 2] in name;
    }
  }

  /** A match that starts inside another ends its flag where the other does. */
  lemma {:induction false} FlagsEndTogether(s: string, name: string, other: string, i: nat, j: nat)
    requires IsName(name) && IsName(other) && MatchAt(s, name, i) && MatchAt(s, other, j)
    requires i <= j < MatchEnd(s, name, i)
    ensures j + |other| == i + |name|
  {
    var p, q := i + 2 + |name|, j + 2 + |other|;
    assert j < p;
    if q < p {
      FlagChar(s, name, i, q);
    } else if p < q {
      FlagChar(s, other, j, p);
    }
  }

  lemma {:induction false} OverlapIsInside(s: string, name: string, other: string, i: nat, j: nat)
    requires IsName(name) && IsName(other) && MatchAt(s, name, i) && MatchAt(s, other, j)
    requires i <= j < MatchEnd(s, name, i)
    ensures if i == j then name == other else Inside(other, name)
  {
    FlagsEndTogether(s, name, other, i, j);
    FlagAt(s, name, i);
    FlagAt(s, other, j);
    if i < j {
      assert Flag(name)[j - i..] == s[i..i + 2 + |name|][j - i..] == s[j..j + 2 + |other|];
    } else {
      assert Flag(name)[2..] == name && Flag(other)[2..] == other;
    }
  }

  /** No match starts inside another of the same name. */
  lemma {:induction false} NoOverlap(s: string, name: string, i: nat, j: nat)
    requires IsName(name) && MatchAt(s, name, i) && i < j < MatchEnd(s, name, i)
    ensures !MatchAt(s, name, j)
  {
    if MatchAt(s, name, j) {
      FlagsEndTogether(s, name, name, i, j);
    }
  }

  /** A match in front of one whose flag it does not end with stops before it. */
  lemma {:induction false} StopsBefore(s: string, name: string, other: string, i: nat, j: nat)
    requires IsName(name) && IsName(other) && !Inside(name, other)
    requires MatchAt(s, name, i) && MatchAt(s, other, j) && j < i
    ensures ValueStart(other, j) < MatchEnd(s, other, j) <= i
  {
    if i < MatchEnd(s, other, j) {
      OverlapIsInside(s, other, name, j, i);
    }
  }

  lemma {:induction false} FindAllNone(s: string, name: string, from: nat)
    requires NoMatch(s, name, from)
    ensures FindAll(s, name, from) == []
    decreases |s| - from
  {
    if from < |s| {
      FindAllNone(s, name, from + 1);
    }
  }

  lemma {:induction false} FindAllFirst(s: string, name: string, from: nat, i: nat)
    requires from <= i && MatchAt(s, name, i) && forall j :: from <= j < i ==> !MatchAt(s, name, j)
    ensures FindAll(s, name, from) == [i] + FindAll(s, name, MatchEnd(s, name, i))
    decreases i - from
  {
    if from < i {
      FindAllFirst(s, name, from + 1, i);
    }
  }

  lemma {:induction false} FirstMatch(s: string, name: string, from: nat, i: nat) returns (first: nat)
    requires from <= i && MatchAt(s, name, i)
    ensures from <= first <= i && MatchAt(s, name, first) && forall j :: from <= j < first ==> !MatchAt(s, name, j)
    decreases i - from
  {
    if MatchAt(s, name, from) {
      return from;
    }
    first := FirstMatch(s, name, from + 1, i);
  }

  /** The search finds no match, one match or several exactly when there are that many. */
  lemma {:induction false} FindAllMeaning(s: string, name: string)
    requires IsName(name)
    ensures FindAll(s, name, 0) == [] <==> NoMatch(s, name, 0)
    ensures |FindAll(s, name, 0)| == 1 ==> OnlyMatch(s, name, FindAll(s, name, 0)[0])
    ensures forall i: nat :: OnlyMatch(s, name, i) ==> FindAll(s, name, 0) == [i]
  {
    if NoMatch(s, name, 0) {
      FindAllNone(s, name, 0);
      assert forall i :: !MatchAt(s, name, i);
    } else {
      var k :| MatchAt(s, name, k);
      var i := FirstMatch(s, name, 0, k);
      var e := MatchEnd(s, name, i);
      FindAllFirst(s, name, 0, i);
      forall j | i < j < e ensures !MatchAt(s, name, j) { NoOverlap(s, name, i, j); }
      if NoMatch(s, name, e) {
        FindAllNone(s, name, e);
      } else {
        var k' :| k' >= e && MatchAt(s, name, k');
        var i' := FirstMatch(s, name, e, k');
        FindAllFirst(s, name, e, i');
      }
    }
  }

  /** Reading and updating fail exactly when the argument occurs more than once. */
  lemma {:induction false} FailsWhenRepeated(s: string, name: string, value: string)
    requires IsName(name)
    ensures GetArg(s, name).MoreThanOne? <==> exists i: nat, j: nat :: i < j && MatchAt(s, name, i) && MatchAt(s, name, j)
    ensures SetArg(s, name, value).MoreThanOne? <==> GetArg(s, name).MoreThanOne?
  {
    FindAllMeaning(s, name);
    if |FindAll(s, name, 0)| > 1 {
      var i: nat :| MatchAt(s, name, i);
      assert !OnlyMatch(s, name, i);
      var j: nat :| MatchAt(s, name, j) && j != i;
      assert MatchAt(s, name, if i < j then i else j) && MatchAt(s, name, if i < j then j else i);
    }
  }

  // ----- replacing the one occurrence

  lemma {:induction false} ReplaceNone(s: string, what: string, with: string, i: nat)
    requires |what| > 0 && i <= |s| && forall j :: j >= i ==> !OccursAt(s, what, j)
    ensures Replace(s, what, with, i) == s[i..]
    decreases |s| - i
  {
    if i + |what| <= |s| {
      ReplaceNone(s, what, with, i + 1);
    }
  }

  lemma {:induction false} SliceCons(s: string, i: nat, o: nat, with: string, tail: string)
    requires i < o <= |s|
    ensures [s[i]] + (s[i + 1..o] + with + tail) == s[i..o] + with + tail
  {
    assert s[i..o] == [s[i]] + s[i + 1..o];
  }

  lemma {:induction false} ReplaceHere(s: string, what: string, with: string, o: nat)
    requires |what| > 0 && OccursAt(s, what, o)
    ensures Replace(s, what, with, o) == with + Replace(s, what, with, o + |what|)
  {
  }

  lemma {:induction false} ReplaceLater(s: string, what: string, with: string, i: nat)
    requires |what| > 0 && i + |what| <= |s| && !OccursAt(s, what, i)
    ensures Replace(s, what, with, i) == [s[i]] + Replace(s, what, with, i + 1)
  {
  }

  lemma {:induction false} ReplaceOnce(s: string, what: string, with: string, i: nat, o: nat)
    requires |what| > 0 && i <= o && OccursAt(s, what, o)
    requires forall j :: j >= i && OccursAt(s, what, j) ==> j == o
    ensures Replace(s, what, with, i) == s[i..o] + with + s[o + |what|..]
    decreases o - i
  {
    if i < o {
      ReplaceOnce(s, what, with, i + 1, o);
      ReplaceLater(s, what, with, i);
      SliceCons(s, i, o, with, s[o + |what|..]);
    } else {
      ReplaceNone(s, what, with, o + |what|);
      ReplaceHere(s, what, with, o);
      assert s[i..o] == [];
    }
  }

  /** The matched text occurs nowhere else, because wherever it occurs there is a match. */
  lemma {:induction false} ReplaceMatch(s: string, name: string, i: nat, with: string)
    requires OnlyMatch(s, name, i)
    ensures var e := MatchEnd(s, name, i); Replace(s, s[i..e], with, 0) == s[..i] + with + s[e..]
  {
    var e := MatchEnd(s, name, i);
    var what := s[i..e];
    forall j | OccursAt(s, what, j) ensures j == i {
      CopiedMatch(s, name, i, j);
    }
    ReplaceOnce(s, what, with, 0, i);
  }

  /** The same, on the characters from the first dash to the first value character. */
  predicate Opens(w: string, name: string)
    requires |w| == |name| + 4
  {
    && w[0] == '-' && w[1] == '-' && w[2..2 + |name|] == name
    && IsSeparator(w[2 + |name|]) && IsValueChar(w[3 + |name|])
  }

  lemma {:induction false} SubSlice(s: string, i: nat, n: nat, a: nat, b: nat)
    requires a <= b <= n && i + n <= |s|
    ensures s[i..i + n][a..b] == s[i + a..i + b]
  {
    var x, y := s[i..i + n][a..b], s[i + a..i + b];
    assert |x| == |y|;
    forall k | 0 <= k < |x| ensures x[k] == y[k] {}
  }

  lemma {:induction false} MatchOpens(s: string, name: string, i: nat)
    requires ValueStart(name, i) < |s|
    ensures MatchAt(s, name, i) <==> Opens(s[i..i + |name| + 4], name)
  {
    var w := s[i..i + |name| + 4];
    SubSlice(s, i, |name| + 4, 2, 2 + |name|);
    assert w[0] == s[i] && w[1] == s[i + 1] && w[2 + |name|] == s[i + 2 + |name|] && w[3 + |name|] == s[i + 3 + |name|];
  }

  lemma {:induction false} CopiedMatch(s: string, name: string, i: nat, j: nat)
    requires MatchAt(s, name, i)
    requires var n := MatchEnd(s, name, i) - i; j + n <= |s| && s[j..j + n] == s[i..i + n]
    ensures MatchAt(s, name, j)
  {
    var n, k := MatchEnd(s, name, i) - i, |name| + 4;
    MatchOpens(s, name, i);
    MatchOpens(s, name, j);
    SubSlice(s, i, n, 0, k);
    SubSlice(s, j, n, 0, k);
  }

  // ----- text around a setting

  /** A setting between two pieces of text, the second not continuing its value. */
  ghost predicate Framed(pre: string, post: string) {
    post != [] ==> !IsValueChar(post[0])
  }

  lemma {:induction false} SettingOpens(name: string, value: string)
    requires IsValue(value)
    ensures var f := Setting(name, value);
            |f| == |name| + 3 + |value| && Opens(f[..|name| + 4], name) && f[|name| + 3..] == value
  {
    var w := Setting(name, value)[..|name| + 4];
    assert w[2..2 + |name|] == name && w[2 + |name|] == '=' && w[3 + |name|] == value[0] && value[0] in value;
  }

  /** The setting is a match, and its value is the one set. */
  lemma {:induction false} SettingMatch(pre: string, name: string, value: string, post: string)
    requires IsName(name) && IsValue(value) && Framed(pre, post)
    ensures var t := pre + Setting(name, value) + post;
            && MatchAt(t, name, |pre|)
            && MatchEnd(t, name, |pre|) == |pre| + |Setting(name, value)|
            && t[ValueStart(name, |pre|)..MatchEnd(t, name, |pre|)] == value
  {
    var f, i := Setting(name, value), |pre|;
    var t, v := pre + f + post, ValueStart(name, i);
    SettingOpens(name, value);
    assert t[i..i + |name| + 4] == f[..|name| + 4];
    MatchOpens(t, name, i);
    assert t[v..i + |f|] == f[|name| + 3..];
    forall k | v <= k < i + |f| ensures IsValueChar(t[k]) {
      assert t[k] == value[k - v] && value[k - v] in value;
    }
    assert i + |f| < |t| ==> t[i + |f|] == post[0];
    RunIs(t, v, i + |f|);
  }

  lemma {:induction false} RunIs(s: string, i: nat, e: nat)
    requires i <= e <= |s| && (e < |s| ==> !IsValueChar(s[e])) && forall k :: i <= k < e ==> IsValueChar(s[k])
    ensures RunEnd(s, i) == e
    decreases e - i
  {
    if i < e {
      RunIs(s, i + 1, e);
    }
  }

  lemma {:induction false} RunSuffix(s: string, t: string, i: nat, j: nat)
    requires i <= |s| && j <= |t| && s[i..] == t[j..]
    ensures RunEnd(s, i) - i == RunEnd(t, j) - j
    decreases |s| - i
  {
    assert |s| - i == |s[i..]| == |t[j..]| == |t| - j;
    if i < |s| {
      assert s[i] == s[i..][0] && t[j] == t[j..][0];
      assert s[i + 1..] == s[i..][1..] && t[j + 1..] == t[j..][1..];
      RunSuffix(s, t, i + 1, j + 1);
    }
  }

  lemma {:induction false} SliceSuffix(s: string, t: string, i: nat, j: nat, a: nat, b: nat)
    requires i <= |s| && j <= |t| && s[i..] == t[j..] && a <= b && i + b <= |s|
    ensures j + b <= |t| && s[i + a..i + b] == t[j + a..j + b]
  {
    var n := |s| - i;
    assert |s[i..]| == |t[j..]| && s[i..i + n] == s[i..] && t[j..j + n] == t[j..];
    SubSlice(s, i, n, a, b);
    SubSlice(t, j, n, a, b);
  }

  lemma {:induction false} OpensSuffix(s: string, t: string, name: string, i: nat, j: nat)
    requires i <= |s| && j <= |t| && s[i..] == t[j..]
    ensures MatchAt(s, name, i) <==> MatchAt(t, name, j)
  {
    assert |s| - i == |s[i..]| == |t[j..]| == |t| - j;
    if ValueStart(name, i) < |s| {
      MatchOpens(s, name, i);
      MatchOpens(t, name, j);
      SliceSuffix(s, t, i, j, 0, |name| + 4);
    }
  }

  lemma {:induction false} ValueSuffix(s: string, t: string, i: nat, j: nat, n: nat)
    requires i + n <= |s| && j + n <= |t| && s[i..] == t[j..]
    ensures s[i + n..RunEnd(s, i + n)] == t[j + n..RunEnd(t, j + n)]
  {
    assert s[i + n..] == s[i..][n..] && t[j + n..] == t[j..][n..];
    RunSuffix(s, t, i + n, j + n);
    SliceSuffix(s, t, i, j, n, RunEnd(s, i + n) - i);
  }

  /** A match depends only on the text from it on ... */
  lemma {:induction false} MatchSuffix(s: string, t: string, name: string, i: nat, j: nat)
    requires i <= |s| && j <= |t| && s[i..] == t[j..]
    ensures MatchAt(s, name, i) <==> MatchAt(t, name, j)
    ensures MatchAt(s, name, i) ==>
              s[ValueStart(name, i)..MatchEnd(s, name, i)] == t[ValueStart(name, j)..MatchEnd(t, name, j)]
  {
    OpensSuffix(s, t, name, i, j);
    if MatchAt(s, name, i) {
      ValueSuffix(s, t, i, j, |name| + 3);
    }
  }

  lemma {:induction false} SlicePrefix(s: string, t: string, p: nat, a: nat, b: nat)
    requires p <= |s| && p <= |t| && s[..p] == t[..p] && a <= b <= p
    ensures s[a..b] == t[a..b]
  {
    assert s[a..b] == s[..p][a..b] && t[a..b] == t[..p][a..b];
  }

  /** ... and, if its first value character is in a common prefix, on that prefix. */
  lemma {:induction false} MatchPrefix(s: string, t: string, name: string, p: nat, j: nat)
    requires p <= |s| && p <= |t| && s[..p] == t[..p] && ValueStart(name, j) < p
    ensures MatchAt(s, name, j) <==> MatchAt(t, name, j)
  {
    MatchOpens(s, name, j);
    MatchOpens(t, name, j);
    SlicePrefix(s, t, p, j, j + |name| + 4);
  }

  /** A run that ends in the common prefix ends there in both texts. */
  lemma {:induction false} RunPrefix(s: string, t: string, p: nat, v: nat)
    requires v <= p <= |s| && p <= |t| && s[..p] == t[..p]
    requires RunEnd(s, v) <= p && (p < |t| ==> !IsValueChar(t[p]))
    ensures RunEnd(t, v) == RunEnd(s, v)
    decreases p - v
  {
    if v < p {
      assert s[v] == s[..p][v] && t[v] == t[..p][v];
      if IsValueChar(s[v]) {
        RunPrefix(s, t, p, v + 1);
      }
    }
  }

  // ----- get after set

  /** What is around the setting after an update of a text with at most one match. */
  ghost predicate Around(s: string, name: string, pre: string, post: string) {
    && Framed(pre, post)
    && if NoMatch(s, name, 0) then pre == s + " " && post == []
       else OnlyMatch(s, name, |pre|) && Replaced(s, name, pre, post)
  }

  /** What a successful update looks like: the text around the old setting, or all of the text and
      a blank, is kept, and the new setting stands in between. */
  lemma {:induction false} SetArgShape(s: string, name: string, value: string) returns (pre: string, post: string)
    requires IsName(name) && SetArg(s, name, value).Ok?
    ensures SetArg(s, name, value) == Ok(pre + Setting(name, value) + post) && Around(s, name, pre, post)
    ensures SetArg(s, name, value) == Ok(pre + ("--" + name + "=" + value) + post)
  {
    FindAllMeaning(s, name);
    var m := FindAll(s, name, 0);
    if m == [] {
      pre, post := s + " ", [];
      assert s + " " + Setting(name, value) == pre + Setting(name, value) + post;
    } else {
      var i := m[0];
      ReplaceMatch(s, name, i, Setting(name, value));
      pre, post := s[..i], s[MatchEnd(s, name, i)..];
    }
  }

  /** The two ways an update keeps the text around the setting: it is appended after a blank, or it
      takes the place of the match that begins where the kept front part ends. */
  ghost predicate Kept(s: string, name: string, pre: string, post: string) {
    || (pre == s + " " && post == [])
    || Replaced(s, name, pre, post)
  }

  ghost predicate Replaced(s: string, name: string, pre: string, post: string) {
    MatchAt(s, name, |pre|) && pre == s[..|pre|] && post == s[MatchEnd(s, name, |pre|)..]
  }

  /** In front of the setting the text has a match only where it had one before ... */
  lemma {:induction false} MatchBefore(s: string, name: string, value: string, other: string, j: nat, pre: string,
                                       post: string)
    requires IsName(name) && IsName(other) && !Inside(name, other) && IsValue(value)
    requires Framed(pre, post) && Kept(s, name, pre, post) && j < |pre|
    ensures MatchAt(pre + Setting(name, value) + post, other, j) <==> MatchAt(s, other, j) && ValueStart(other, j) < |pre|
  {
    var t, i := pre + Setting(name, value) + post, |pre|;
    var p := OldPart(s, pre, post);
    OldPartKept(s, name, value, pre, post);
    if ValueStart(other, j) < p {
      MatchPrefix(s, t, other, p, j);
    }
    if MatchAt(t, other, j) {
      SettingMatch(pre, name, value, post);
      StopsBefore(t, name, other, i, j);
    }
  }

  lemma {:induction false} TailBehind(s: string, pre: string, f: string, post: string, o: nat)
    requires |post| <= |s| && s[|s| - |post|..] == post && o <= |post|
    ensures (pre + f + post)[|pre| + |f| + o..] == s[|s| - |post| + o..]
  {
    var t, m := pre + f + post, |s| - |post|;
    assert t[|pre| + |f| + o..] == post[o..];
    assert s[m + o..] == s[m..][o..];
  }

  /** ... and behind it likewise. */
  lemma {:induction false} MatchBehind(s: string, pre: string, f: string, post: string, other: string, o: nat)
    requires |post| <= |s| && s[|s| - |post|..] == post && o <= |post|
    ensures var t, j, k := pre + f + post, |pre| + |f| + o, |s| - |post| + o;
            && (MatchAt(t, other, j) <==> MatchAt(s, other, k))
            && (MatchAt(s, other, k) ==>
                  s[ValueStart(other, k)..MatchEnd(s, other, k)] == t[ValueStart(other, j)..MatchEnd(t, other, j)])
  {
    var t := pre + f + post;
    TailBehind(s, pre, f, post, o);
    MatchSuffix(t, s, other, |pre| + |f| + o, |s| - |post| + o);
  }

  lemma {:induction false} NoneBefore(s: string, name: string, value: string, j: nat, pre: string, post: string)
    requires IsName(name) && IsValue(value) && Around(s, name, pre, post) && j < |pre|
    ensures !MatchAt(pre + Setting(name, value) + post, name, j)
  {
    MatchBefore(s, name, value, name, j, pre, post);
  }

  lemma {:induction false} NoneBehind(s: string, name: string, value: string, j: nat, pre: string, post: string)
    requires IsName(name) && IsValue(value) && Around(s, name, pre, post) && j >= |pre| + |Setting(name, value)|
    ensures !MatchAt(pre + Setting(name, value) + post, name, j)
  {
    var n := |pre| + |Setting(name, value)|;
    if j < n + |post| {
      ReplacedTail(s, name, pre, post);
      MatchBehind(s, pre, Setting(name, value), post, name, j - n);
    }
  }

  lemma {:induction false} OnlySetting(s: string, name: string, value: string, j: nat, pre: string, post: string)
    requires IsName(name) && IsValue(value) && Around(s, name, pre, post)
    requires MatchAt(pre + Setting(name, value) + post, name, j)
    ensures j == |pre|
  {
    var f := Setting(name, value);
    if j < |pre| {
      NoneBefore(s, name, value, j, pre, post);
    } else if |pre| < j < |pre| + |f| {
      SettingMatch(pre, name, value, post);
      NoOverlap(pre + f + post, name, |pre|, j);
    } else if j >= |pre| + |f| {
      NoneBehind(s, name, value, j, pre, post);
    }
  }

  /** After an update the argument occurs exactly once, at the new setting. */
  lemma {:induction false} SetArgMatches(s: string, name: string, value: string, pre: string, post: string)
    requires IsName(name) && IsValue(value) && Around(s, name, pre, post)
    ensures OnlyMatch(pre + Setting(name, value) + post, name, |pre|)
  {
    SettingMatch(pre, name, value, post);
    forall j: nat | MatchAt(pre + Setting(name, value) + post, name, j) ensures j == |pre| {
      OnlySetting(s, name, value, j, pre, post);
    }
  }

  /** Reading back gives the value set. */
  lemma {:induction false} GetAfterSet(s: string, name: string, value: string)
    requires IsName(name) && IsValue(value) && SetArg(s, name, value).Ok?
    ensures GetArg(SetArg(s, name, value).value, name) == Ok(Some(value))
  {
    var pre, post := SetArgShape(s, name, value);
    var t := pre + Setting(name, value) + post;
    SetArgMatches(s, name, value, pre, post);
    SettingMatch(pre, name, value, post);
    FindAllMeaning(t, name);
    assert FindAll(t, name, 0) == [|pre|];
  }

  /** A later update replaces an earlier one completely; updating twice is updating once. */
  lemma {:induction false} SetAfterSet(s: string, name: string, value: string, later: string)
    requires IsName(name) && IsValue(value) && SetArg(s, name, value).Ok?
    ensures SetArg(SetArg(s, name, value).value, name, later) == SetArg(s, name, later)
  {
    var pre, post := SetArgShape(s, name, value);
    var pre', post' := SetArgShape(s, name, later);
    var t := pre + Setting(name, value) + post;
    SetArgMatches(s, name, value, pre, post);
    SettingMatch(pre, name, value, post);
    FindAllMeaning(t, name);
    assert FindAll(t, name, 0) == [|pre|];
    ReplaceMatch(t, name, |pre|, Setting(name, later));
    assert t[..|pre|] == pre && t[MatchEnd(t, name, |pre|)..] == post;
  }

  // ----- other arguments

  /** Where a position outside the old setting ends up. */
  function Image(s: string, pre: string, f: string, post: string, j: int): int {
    if j < |pre| then j else j - (|s| - |post|) + |pre| + |f|
  }

  /** How much of the text in front of the setting is old text. */
  function OldPart(s: string, pre: string, post: string): nat {
    if pre == s + " " && post == [] then |s| else |pre|
  }

  lemma {:induction false} OldPartKept(s: string, name: string, value: string, pre: string, post: string)
    requires Kept(s, name, pre, post)
    ensures var t, p := pre + Setting(name, value) + post, OldPart(s, pre, post);
            p <= |s| && p < |t| && s[..p] == t[..p] && !IsValueChar(t[p]) && (p < |pre| ==> p == |s|)
  {
    var t := pre + Setting(name, value) + post;
    assert t[|pre|] == '-';
    if pre == s + " " && post == [] {
      assert s[..|s|] == s && t[..|s|] == s && t[|s|] == ' ';
    } else {
      assert t[..|pre|] == pre;
    }
  }

  /** A match in front of the setting keeps its value. */
  lemma {:induction false} CarriedBefore(s: string, name: string, value: string, other: string, j: nat,
                                         pre: string, post: string)
    requires IsName(name) && IsName(other) && !Inside(name, other) && Kept(s, name, pre, post)
    requires j < |pre| && MatchAt(s, other, j)
    ensures var t := pre + Setting(name, value) + post;
            && MatchAt(t, other, j)
            && s[ValueStart(other, j)..MatchEnd(s, other, j)] == t[ValueStart(other, j)..MatchEnd(t, other, j)]
  {
    var t, p := pre + Setting(name, value) + post, OldPart(s, pre, post);
    OldPartKept(s, name, value, pre, post);
    if p == |pre| && p < |s| {
      StopsBefore(s, name, other, |pre|, j);
    }
    MatchPrefix(s, t, other, p, j);
    RunPrefix(s, t, p, ValueStart(other, j));
    SlicePrefix(s, t, p, ValueStart(other, j), MatchEnd(s, other, j));
  }

  /** No match of a name apart overlaps the old setting. */
  lemma {:induction false} OtherOutside(s: string, name: string, other: string, i: nat, j: nat)
    requires IsName(name) && IsName(other) && Apart(name, other) && MatchAt(s, name, i) && MatchAt(s, other, j) && j >= i
    ensures j >= MatchEnd(s, name, i)
  {
    if j < MatchEnd(s, name, i) {
      OverlapIsInside(s, name, other, i, j);
    }
  }

  /** A replaced setting leaves the text behind it as it was. */
  lemma {:induction false} ReplacedTail(s: string, name: string, pre: string, post: string)
    requires Replaced(s, name, pre, post)
    ensures |pre| <= |s| - |post| && s[|s| - |post|..] == post && MatchEnd(s, name, |pre|) == |s| - |post|
  {
  }

  lemma {:induction false} CarriedBehind(s: string, pre: string, f: string, post: string, other: string, j: nat)
    requires |pre| <= |s| - |post| <= j && s[|s| - |post|..] == post && MatchAt(s, other, j)
    ensures var t, k := pre + f + post, Image(s, pre, f, post, j);
            && k >= 0 && MatchAt(t, other, k)
            && s[ValueStart(other, j)..MatchEnd(s, other, j)] == t[ValueStart(other, k)..MatchEnd(t, other, k)]
  {
    MatchBehind(s, pre, f, post, other, j - (|s| - |post|));
  }

  /** Every match of another argument is carried over with its value ... */
  lemma {:induction false} OtherCarried(s: string, name: string, value: string, other: string, j: nat,
                                        pre: string, post: string)
    requires IsName(name) && IsName(other) && Apart(name, other) && Kept(s, name, pre, post) && MatchAt(s, other, j)
    ensures var t, k := pre + Setting(name, value) + post, Image(s, pre, Setting(name, value), post, j);
            && (j < |pre| || j >= |s| - |post|)
            && k >= 0 && MatchAt(t, other, k)
            && s[ValueStart(other, j)..MatchEnd(s, other, j)] == t[ValueStart(other, k)..MatchEnd(t, other, k)]
  {
    if j < |pre| {
      CarriedBefore(s, name, value, other, j, pre, post);
    } else {
      ReplacedTail(s, name, pre, post);
      OtherOutside(s, name, other, |pre|, j);
      CarriedBehind(s, pre, Setting(name, value), post, other, j);
    }
  }

  lemma {:induction false} CarriedFromBehind(s: string, name: string, f: string, other: string, k: nat,
                                             pre: string, post: string) returns (j: nat)
    requires Kept(s, name, pre, post) && |pre| + |f| <= k && MatchAt(pre + f + post, other, k)
    ensures MatchAt(s, other, j) && k == Image(s, pre, f, post, j)
  {
    ReplacedTail(s, name, pre, post);
    MatchBehind(s, pre, f, post, other, k - |pre| - |f|);
    j := |s| - |post| + (k - |pre| - |f|);
  }

  /** ... and no other match appears. */
  lemma {:induction false} OtherOnlyCarried(s: string, name: string, value: string, other: string, k: nat,
                                            pre: string, post: string) returns (j: nat)
    requires IsName(name) && IsName(other) && Apart(name, other) && IsValue(value)
    requires Framed(pre, post) && Kept(s, name, pre, post)
    requires MatchAt(pre + Setting(name, value) + post, other, k)
    ensures MatchAt(s, other, j) && k == Image(s, pre, Setting(name, value), post, j)
  {
    if k < |pre| {
      MatchBefore(s, name, value, other, k, pre, post);
      return k;
    }
    SettingMatch(pre, name, value, post);
    OtherOutside(pre + Setting(name, value) + post, name, other, |pre|, k);
    j := CarriedFromBehind(s, name, Setting(name, value), other, k, pre, post);
  }

  /** Setting one argument changes what is read of no other, if their flags are apart. */
  lemma {:induction false} GetOtherAfterSet(s: string, name: string, value: string, other: string)
    requires IsName(name) && IsName(other) && Apart(name, other) && IsValue(value) && SetArg(s, name, value).Ok?
    ensures GetArg(SetArg(s, name, value).value, other) == GetArg(s, other)
  {
    var pre, post := SetArgShape(s, name, value);
    var t, f := pre + Setting(name, value) + post, Setting(name, value);
    FindAllMeaning(s, other);
    FindAllMeaning(t, other);
    if NoMatch(s, other, 0) {
      if !NoMatch(t, other, 0) {
        var k: nat :| MatchAt(t, other, k);
        var j := OtherOnlyCarried(s, name, value, other, k, pre, post);
      }
    } else {
      var j: nat :| MatchAt(s, other, j);
      OtherCarried(s, name, value, other, j, pre, post);
      if OnlyMatch(s, other, j) {
        var k := Image(s, pre, f, post, j);
        forall k': nat | MatchAt(t, other, k') ensures k' == k {
          var j' := OtherOnlyCarried(s, name, value, other, k', pre, post);
        }
        assert OnlyMatch(t, other, k);
      } else {
        var j': nat :| MatchAt(s, other, j') && j' != j;
        OtherCarried(s, name, value, other, j', pre, post);
      }
    }
  }

  // ----- names that are not apart

  /** A setting of the longer name is one of the shorter name behind the rest of the flag. */
  lemma {:induction false} SettingInside(name: string, other: string, value: string)
    requires Inside(name, other)
    ensures Setting(other, value) == Flag(other)[..|other| - |name|] + Setting(name, value)
  {
    var d := |other| - |name|;
    assert Flag(other) == Flag(other)[..d] + Flag(name);
    assert Setting(name, value) == Flag(name) + ("=" + value) && Setting(other, value) == Flag(other) + ("=" + value);
  }

  lemma {:induction false} SettingChar(name: string, value: string, k: nat)
    requires IsName(name) && IsValue(value) && k < |Setting(name, value)| && k != |name| + 2
    ensures !IsSeparator(Setting(name, value)[k])
  {
    var f := Setting(name, value);
    if 2 <= k < |name| + 2 {
      assert f[k] == name[k - 2] && name[k - 2] in name;
    } else if k > |name| + 2 {
      assert f[k] == value[k - |name| - 3] && value[k - |name| - 3] in value;
    }
  }

  lemma {:induction false} AloneOnce(name: string, other: string, value: string, j: nat)
    requires IsName(other) && IsValue(value) && MatchAt(Setting(other, value), name, j)
    ensures j + |name| == |other|
  {
    if j + |name| != |other| {
      SettingChar(other, value, j + 2 + |name|);
    }
  }

  /** In a text that is one setting, the flag in it is matched once. */
  lemma {:induction false} AloneMatch(name: string, other: string, value: string)
    requires IsName(name) && IsName(other) && IsValue(value) && (name == other || Inside(name, other))
    ensures OnlyMatch(Setting(other, value), name, |other| - |name|)
    ensures GetArg(Setting(other, value), name) == Ok(Some(value))
  {
    var t, d := Setting(other, value), |other| - |name|;
    var pre := Flag(other)[..d];
    if Inside(name, other) {
      SettingInside(name, other, value);
    } else {
      assert pre + Setting(name, value) == t;
    }
    assert pre + Setting(name, value) + [] == t;
    SettingMatch(pre, name, value, []);
    forall j: nat | MatchAt(t, name, j) ensures j == d {
      AloneOnce(name, other, value, j);
    }
    FindAllMeaning(t, name);
    assert FindAll(t, name, 0) == [d];
  }

  /** A text on which updating one argument changes what is read of the other. */
  ghost predicate Disturbs(s: string, name: string, value: string, other: string) {
    SetArg(s, name, value).Ok? && GetArg(SetArg(s, name, value).value, other) != GetArg(s, other)
  }

  lemma {:induction false} ShorterDisturbed(name: string, value: string, other: string)
    requires IsName(name) && IsName(other) && IsValue(value) && Inside(other, name)
    ensures Disturbs("", name, value, other)
  {
    FindAllNone("", name, 0);
    FindAllNone("", other, 0);
    var pre := " " + Flag(name)[..|name| - |other|];
    SettingInside(other, name, value);
    var t := "" + " " + Setting(name, value);
    assert t == pre + Setting(other, value) + [];
    SettingMatch(pre, other, value, []);
    FindAllMeaning(t, other);
    assert SetArg("", name, value) == Ok(t);
  }

  lemma {:induction false} SetInside(name: string, value: string, other: string, was: string)
    requires IsName(name) && IsName(other) && IsValue(value) && IsValue(was) && Inside(name, other)
    ensures SetArg(Setting(other, was), name, value) == Ok(Setting(other, value))
  {
    var s, d := Setting(other, was), |other| - |name|;
    var pre := Flag(other)[..d];
    AloneMatch(name, other, was);
    FindAllMeaning(s, name);
    assert FindAll(s, name, 0) == [d];
    ReplaceMatch(s, name, d, Setting(name, value));
    SettingInside(name, other, was);
    assert s == pre + Setting(name, was) + [] && |pre| == d;
    SettingMatch(pre, name, was, []);
    SettingInside(name, other, value);
    assert s[..d] + Setting(name, value) + s[MatchEnd(s, name, d)..] == Setting(other, value);
  }

  lemma {:induction false} LongerDisturbed(name: string, value: string, other: string, was: string)
    requires IsName(name) && IsName(other) && IsValue(value) && IsValue(was) && was != value && Inside(name, other)
    ensures Disturbs(Setting(other, was), name, value, other)
  {
    SetInside(name, value, other, was);
    AloneMatch(other, other, was);
    AloneMatch(other, other, value);
  }

  /** Updates of one argument never disturb another exactly when their flags are apart. */
  lemma {:induction false} UndisturbedIff(name: string, value: string, other: string)
    requires IsName(name) && IsName(other) && name != other && IsValue(value)
    ensures (forall s :: !Disturbs(s, name, value, other)) <==> Apart(name, other)
  {
    if Apart(name, other) {
      forall s | SetArg(s, name, value).Ok? ensures !Disturbs(s, name, value, other) {
        GetOtherAfterSet(s, name, value, other);
      }
    } else if Inside(other, name) {
      ShorterDisturbed(name, value, other);
    } else {
      LongerDisturbed(name, value, other, if value == "1" then "2" else "1");
    }
  }

  /** Names made of word characters are apart as soon as they differ. */
  lemma {:induction false} WordNamesApart(name: string, other: string)
    requires (forall c :: c in name ==> IsWord(c)) && (forall c :: c in other ==> IsWord(c))
    ensures IsName(name) && IsName(other)
    ensures Apart(name, other) <==> name != other
  {
    WordNameNotInside(name, other);
    WordNameNotInside(other, name);
  }

  lemma {:induction false} WordNameNotInside(name: string, other: string)
    requires forall c :: c in other ==> IsWord(c)
    ensures !Inside(name, other)
  {
    if |name| < |other| {
      var d := |other| - |name|;
      assert Flag(other)[d..][1] == other[d - 1] && other[d - 1] in other;
      assert Flag(name)[1] == '-';
    }
  }

  // ----- the characters

  const LETTERS := "abcdefghijklmnopqrstuvwxyz"
  const CAPITALS := "ABCDEFGHIJKLMNOPQRSTUVWXYZ"
  const DIGITS := "0123456789"

  lemma {:induction false} Letters(c: char)
    ensures c in LETTERS <==> 'a' <= c <= 'z'
  {
    if 'a' <= c <= 'z' {
      assert LETTERS[c as int - 97] == c;
    }
  }

  lemma {:induction false} Capitals(c: char)
    ensures c in CAPITALS <==> 'A' <= c <= 'Z'
  {
    if 'A' <= c <= 'Z' {
      assert CAPITALS[c as int - 65] == c;
    }
  }

  lemma {:induction false} Digits(c: char)
    ensures c in DIGITS <==> '0' <= c <= '9'
  {
    if '0' <= c <= '9' {
      assert DIGITS[c as int - 48] == c;
    }
  }

  /** The characters a value may have, spelled out. */
  predicate Spelled(c: char) {
    c in LETTERS || c in CAPITALS || c in DIGITS || c == '_' || c == '(' || c == ')' || c == ',' || c == '+'
  }

  lemma {:induction false} ValueCharacters(c: char)
    ensures IsValueChar(c) <==> Spelled(c)
  {
    Letters(c);
    Capitals(c);
    Digits(c);
  }

  /** One equals sign or one character of white space, spelled out, may stand before the value. */
  predicate Separates(c: char) {
    c in "= \t\n\r" || c as int in {0x0b, 0x0c, 0x1c, 0x1d, 0x1e, 0x1f}
  }

  lemma {:induction false} FlagCharacter(name: string, sep: char, v: string, k: nat)
    requires IsName(name) && IsValue(v) && k < |Flag(name) + [sep] + v| && k != |name| + 2
    ensures !IsSeparator((Flag(name) + [sep] + v)[k])
  {
    var t := Flag(name) + [sep] + v;
    if 2 <= k < |name| + 2 {
      assert t[k] == name[k - 2] && name[k - 2] in name;
    } else if k > |name| + 2 {
      assert t[k] == v[k - |name| - 3] && v[k - |name| - 3] in v;
    }
  }

  lemma {:induction false} ReadsBehind(name: string, sep: char, v: string)
    requires IsName(name) && IsSeparator(sep) && IsValue(v)
    ensures GetArg(Flag(name) + [sep] + v, name) == Ok(Some(v))
  {
    var t, p := Flag(name) + [sep] + v, |name| + 3;
    assert t[2..2 + |name|] == name && t[p] == v[0] && v[0] in v && t[p..] == v;
    assert MatchAt(t, name, 0);
    forall k | p <= k < |t| ensures IsValueChar(t[k]) {
      assert t[k] == v[k - p] && v[k - p] in v;
    }
    RunIs(t, p, |t|);
    forall j: nat | MatchAt(t, name, j) ensures j == 0 {
      if j != 0 {
        FlagCharacter(name, sep, v, j + 2 + |name|);
      }
    }
    assert OnlyMatch(t, name, 0);
    FindAllMeaning(t, name);
    assert t[p..|t|] == v;
  }

  lemma {:induction false} SeparatesIff(c: char)
    ensures Separates(c) <==> IsSeparator(c)
  {
  }

  /** However it is separated, the value behind a flag is read whole. */
  lemma {:induction false} ReadsValue(name: string, sep: char, v: string)
    requires IsName(name) && Separates(sep) && v != [] && forall c :: c in v ==> Spelled(c)
    ensures GetArg(Flag(name) + [sep] + v, name) == Ok(Some(v))
  {
    forall c | c in v ensures IsValueChar(c) { ValueCharacters(c); }
    SeparatesIff(sep);
    ReadsBehind(name, sep, v);
  }
}
