/** The mongod option map of the power-cycle test: printed as a command line and parsed back. */
module MongodOptions {
  import opened Wrappers

  /** An option's value, if it has one, and whether it is written with one dash or two. */
  datatype Setting = Setting(value: Option<string>, form: string)

  type Options = map<string, Setting>

  predicate IsBlank(c: char) { c == ' ' || c == '\t' || c == '\r' || c == '\n' }

  /** Free of blanks and of the characters the shell lexer treats specially. */
  predicate Plain(s: string) {
    forall c :: c in s ==> !IsBlank(c) && c != '\'' && c != '"' && c != '\\'
  }

  // ----- splitting

  /** Where the shell lexer is: between words, in a word, in quotes, or behind a backslash. */
  datatype Mode = Space | Word | Quote(q: char) | Escape(back: Mode)

  /** Within quotes a backslash that escapes nothing stands for itself. */
  function Escaped(back: Mode, c: char): string {
    (if back.Quote? && c != '\\' && c != back.q then "\\" else "") + [c]
  }

  function Emit(token: string, quoted: bool): seq<string> {
    if token != [] || quoted then [token] else []
  }

  /** The words of a text, `token` being the one begun; none if a quotation or an escape is not
      finished. Double quotes leave backslashes active, single quotes do not. */
  function Lex(s: string, mode: Mode, token: string, quoted: bool): Option<seq<string>>
    decreases |s|
  {
    if s == [] then
      if mode.Quote? || mode.Escape? then None else Some(Emit(token, quoted))
    else
      var c, rest := s[0], s[1..];
      match mode
      case Quote(q) =>
        if c == q then Lex(rest, Word, token, true)
        else if c == '\\' && q == '"' then Lex(rest, Escape(mode), token, true)
        else Lex(rest, mode, token + [c], true)
      case Escape(back) => Lex(rest, back, token + Escaped(back, c), quoted)
      case _ =>
        if IsBlank(c) then
          match Lex(rest, Space, [], false)
          case None => None
          case Some(words) => Some(Emit(token, quoted) + words)
        else if c == '\'' || c == '"' then Lex(rest, Quote(c), token, quoted)
        else if c == '\\' then Lex(rest, Escape(Word), token, quoted)
        else Lex(rest, Word, token + [c], quoted)
  }

  function Split(s: string): Option<seq<string>> {
    Lex(s, Space, [], false)
  }

  lemma {:induction false} LexWord(w: string, s: string, mode: Mode, token: string)
    requires Plain(w) && (mode == Word || (mode == Space && w != []))
    ensures Lex(w + s, mode, token, false) == Lex(s, Word, token + w, false)
    decreases |w|
  {
    if w == [] {
      assert w + s == s && token + w == token;
    } else {
      assert (w + s)[1..] == w[1..] + s && w[0] in w;
      LexWord(w[1..], s, Word, token + [w[0]]);
      assert token + [w[0]] + w[1..] == token + w;
    }
  }

  lemma {:induction false} LexBlank(s: string, mode: Mode, token: string)
    requires mode == Word || mode == Space
    ensures Lex(" " + s, mode, token, false)
         == match Split(s) case None => None case Some(words) => Some(Emit(token, false) + words)
  {
    assert (" " + s)[1..] == s;
  }

  // ----- printing

  function Words(name: string, o: Setting): seq<string> {
    [o.form + name] + if o.value.Some? && o.value.value != [] then [o.value.value] else []
  }

  function Spaced(words: seq<string>): string {
    if words == [] then [] else " " + words[0] + Spaced(words[1..])
  }

  /** All words of the options listed, in the order of the dictionary. */
  function AllWords(order: seq<string>, m: Options): seq<string>
    requires forall n :: n in order ==> n in m
  {
    if order == [] then []
    else
      var k := |order| - 1;
      AllWords(order[..k], m) + Words(order[k], m[order[k]])
  }

  method PrintOptions(order: seq<string>, m: Options) returns (s: string)
    requires forall n :: n in order ==> n in m
    ensures s == Spaced(AllWords(order, m))
  {
    s := "";
    for i := 0 to |order|
      invariant s == Spaced(AllWords(order[..i], m))
    {
      assert order[..i + 1][..i] == order[..i];
      var name := order[i];
      var o := m[name];
      SpacedAppend(AllWords(order[..i], m), Words(name, o));
      SpacedWords(s, name, o);
      s := s + " " + o.form + name;
      if o.value.Some? && o.value.value != [] {
        s := s + " " + o.value.value;
      }
    }
    assert order[..|order|] == order;
  }

  lemma {:induction false} SpacedAppend(a: seq<string>, b: seq<string>)
    ensures Spaced(a + b) == Spaced(a) + Spaced(b)
  {
    if a == [] {
      assert a + b == b;
    } else {
      SpacedAppend(a[1..], b);
      assert (a + b)[1..] == a[1..] + b;
    }
  }

  lemma {:induction false} SpacedOne(w: string)
    ensures Spaced([w]) == " " + w
  {
    assert [w][1..] == [];
  }

  lemma {:induction false} SpacedWords(s: string, name: string, o: Setting)
    ensures s + Spaced(Words(name, o))
         == if o.value.Some? && o.value.value != [] then s + " " + o.form + name + " " + o.value.value
            else s + " " + o.form + name
  {
    var w := o.form + name;
    SpacedOne(w);
    assert s + (" " + w) == s + " " + o.form + name;
    if o.value.Some? && o.value.value != [] {
      SpacedAppend([w], [o.value.value]);
      SpacedOne(o.value.value);
    }
  }

  /** Words behind blanks are split into these words, after the one begun. */
  lemma {:induction false} LexSpaced(words: seq<string>, mode: Mode, token: string)
    requires (mode == Space && token == []) || (mode == Word && token != [])
    requires forall w :: w in words ==> Plain(w) && w != []
    ensures Lex(Spaced(words), mode, token, false) == Some(Emit(token, false) + words)
    decreases |words|
  {
    if words == [] {
      assert Emit(token, false) + words == Emit(token, false);
    } else {
      var w, rest := words[0], Spaced(words[1..]);
      assert w in words;
      LexSpaced(words[1..], Word, w);
      LexWord(w, rest, Space, []);
      assert [] + w == w;
      LexBlank(w + rest, mode, token);
      assert Spaced(words) == " " + (w + rest) && words == [w] + words[1..];
    }
  }

  lemma {:induction false} AllWordsAppend(a: seq<string>, b: seq<string>, m: Options)
    requires (forall n :: n in a ==> n in m) && (forall n :: n in b ==> n in m)
    ensures AllWords(a + b, m) == AllWords(a, m) + AllWords(b, m)
    decreases |b|
  {
    if b == [] {
      assert a + b == a;
    } else {
      var k := |b| - 1;
      AllWordsAppend(a, b[..k], m);
      assert (a + b)[..|a + b| - 1] == a + b[..k];
    }
  }

  lemma {:induction false} AllWordsOne(n: string, m: Options)
    requires n in m
    ensures AllWords([n], m) == Words(n, m[n])
  {
    assert [n][..0] == [];
    assert [] + Words(n, m[n]) == Words(n, m[n]);
  }

  lemma {:induction false} SpacedAround(order: seq<string>, m: Options, i: nat)
    requires (forall n :: n in order ==> n in m) && i < |order|
    ensures Spaced(AllWords(order, m))
         == Spaced(AllWords(order[..i], m)) + (Spaced(Words(order[i], m[order[i]])) + Spaced(AllWords(order[i + 1..], m)))
  {
    var n, before, after := order[i], order[..i], order[i + 1..];
    assert order == before + ([n] + after);
    AllWordsAppend(before, [n] + after, m);
    AllWordsAppend([n], after, m);
    AllWordsOne(n, m);
    SpacedAppend(AllWords(before, m), AllWords([n] + after, m));
    SpacedAppend(Words(n, m[n]), AllWords(after, m));
  }

  /** The text of one option. */
  function OptionText(name: string, o: Setting): string {
    if o.value.Some? && o.value.value != [] then " " + o.form + name + " " + o.value.value else " " + o.form + name
  }

  lemma {:induction false} WordsText(name: string, o: Setting)
    ensures Spaced(Words(name, o)) == OptionText(name, o)
  {
    SpacedWords("", name, o);
    assert "" + Spaced(Words(name, o)) == Spaced(Words(name, o));
    assert "" + " " == " ";
  }

  /** An option is printed behind the options before it and in front of those after it. */
  lemma {:induction false} PrintedInOrder(order: seq<string>, m: Options, i: nat)
    requires (forall n :: n in order ==> n in m) && i < |order|
    ensures Spaced(AllWords(order, m))
         == Spaced(AllWords(order[..i], m)) + (OptionText(order[i], m[order[i]]) + Spaced(AllWords(order[i + 1..], m)))
  {
    SpacedAround(order, m, i);
    WordsText(order[i], m[order[i]]);
  }

  // ----- parsing

  /** The option a value would belong to: none read yet, one that takes no value, or a name. */
  datatype Pending = Unset | Closed | Open(name: string)

  datatype Parse = Parse(options: Options, pending: Pending, form: string) | Error

  function FindEq(s: string, i: nat): (r: Option<nat>)
    requires i <= |s|
    ensures r.Some? ==> i <= r.value < |s| && s[r.value] == '='
    ensures r.None? ==> forall k :: i <= k < |s| ==> s[k] != '='
    decreases |s| - i
  {
    if i == |s| then None else if s[i] == '=' then Some(i) else FindEq(s, i + 1)
  }

  /** One word: `-name`, `--name`, either with `=value`, or a value for the option before it. A lone
      dash and a value before any option are errors. */
  function Step(p: Parse, opt: string): Parse
    requires p.Parse?
  {
    if opt != [] && opt[0] == '-' then
      if |opt| == 1 then Error
      else
        var idx := if opt[1] == '-' then 2 else 1;
        match FindEq(opt, idx)
        case None => Parse(p.options[opt[idx..] := Setting(None, opt[..idx])], Open(opt[idx..]), opt[..idx])
        case Some(eq) =>
          Parse(p.options[opt[idx..eq] := Setting(Some(opt[eq + 1..]), opt[..idx])], Closed, opt[..idx])
    else
      match p.pending
      case Unset => Error
      case Closed => p
      case Open(name) => if name == [] then p else p.(options := p.options[name := Setting(Some(opt), p.form)])
  }

  function Steps(p: Parse, words: seq<string>): Parse
    decreases |words|
  {
    if words == [] then p
    else
      var q := Steps(p, words[..|words| - 1]);
      if q.Error? then Error else Step(q, words[|words| - 1])
  }

  const START := Parse(map[], Unset, "")

  /** The options of a text, or none where the parser raises: unfinished quotes or escapes, a lone
      dash, or a value before any option. */
  function Parsed(s: string): Option<Options> {
    match Split(s)
    case None => None
    case Some(words) => match Steps(START, words) case Error => None case Parse(options, _, _) => Some(options)
  }

  method ParseOptions(s: string) returns (r: Option<Options>)
    ensures r == Parsed(s)
  {
    var p, opts := START, Split(s);
    if opts.None? {
      return None;
    }
    var words := opts.value;
    for i := 0 to |words|
      invariant p.Parse? && p == Steps(START, words[..i])
    {
      assert words[..i + 1][..i] == words[..i];
      p := Step(p, words[i]);
      if p.Error? {
        ErrorStays(START, words, i + 1);
        return None;
      }
    }
    assert words[..|words|] == words;
    return Some(p.options);
  }

  lemma {:induction false} ErrorStays(p: Parse, words: seq<string>, i: nat)
    requires i <= |words| && Steps(p, words[..i]).Error?
    ensures Steps(p, words).Error?
    decreases |words|
  {
    if i < |words| {
      assert words[..|words| - 1][..i] == words[..i];
      ErrorStays(p, words[..|words| - 1], i);
    } else {
      assert words[..i] == words;
    }
  }

  // ----- parsing undoes printing

  /** A flag that is read as it was written. */
  predicate ReadableFlag(name: string, form: string) {
    '=' !in name && (form == "--" || (form == "-" && name != [] && name[0] != '-'))
  }

  /** An option that survives being printed; a value needs a name in front of it. */
  predicate Printable(name: string, o: Setting) {
    && Plain(name) && ReadableFlag(name, o.form)
    && (o.value.Some? ==>
          name != [] && o.value.value != [] && Plain(o.value.value) && o.value.value[0] != '-')
  }

  lemma {:induction false} NameWord(p: Parse, name: string, form: string)
    requires p.Parse? && ReadableFlag(name, form)
    ensures Step(p, form + name) == Parse(p.options[name := Setting(None, form)], Open(name), form)
  {
    var w, idx := form + name, |form|;
    assert w[idx..] == name && w[..idx] == form;
    assert form == "-" ==> w[1] == name[0];
    forall k | idx <= k < |w| ensures w[k] != '=' {
      assert w[k] == name[k - idx] && name[k - idx] in name;
    }
  }

  lemma {:induction false} StepsSnoc(p: Parse, words: seq<string>, w: string)
    ensures Steps(p, words + [w]) == if Steps(p, words).Error? then Error else Step(Steps(p, words), w)
  {
    assert (words + [w])[..|words|] == words;
  }

  /** The words of one option record exactly that option. */
  lemma {:induction false} OptionWords(p: Parse, words: seq<string>, name: string, o: Setting)
    requires Steps(p, words).Parse? && Printable(name, o)
    ensures var q := Steps(p, words + Words(name, o)); q.Parse? && q.options == Steps(p, words).options[name := o]
  {
    var w := o.form + name;
    StepsSnoc(p, words, w);
    NameWord(Steps(p, words), name, o.form);
    if o.value.Some? {
      StepsSnoc(p, words + [w], o.value.value);
      assert words + Words(name, o) == words + [w] + [o.value.value];
    } else {
      assert words + Words(name, o) == words + [w];
    }
  }

  lemma {:induction false} AllWordsParsed(order: seq<string>, m: Options)
    requires forall n :: n in order ==> n in m && Printable(n, m[n])
    ensures var q := Steps(START, AllWords(order, m));
            && q.Parse?
            && (forall n :: n in q.options <==> n in order)
            && (forall n :: n in order ==> q.options[n] == m[n])
    decreases |order|
  {
    if order != [] {
      var k := |order| - 1;
      AllWordsParsed(order[..k], m);
      OptionWords(START, AllWords(order[..k], m), order[k], m[order[k]]);
      assert order == order[..k] + [order[k]];
    }
  }

  lemma {:induction false} AllWordsPlain(order: seq<string>, m: Options)
    requires forall n :: n in order ==> n in m && Printable(n, m[n])
    ensures forall w :: w in AllWords(order, m) ==> Plain(w) && w != []
    decreases |order|
  {
    if order != [] {
      AllWordsPlain(order[..|order| - 1], m);
    }
  }

  /** However the map is ordered, the printed line parses back to it. */
  lemma {:induction false} ParseUndoesPrint(order: seq<string>, m: Options)
    requires forall n :: n in m ==> Printable(n, m[n])
    requires forall n :: n in order <==> n in m
    ensures Parsed(Spaced(AllWords(order, m))) == Some(m)
  {
    var words := AllWords(order, m);
    AllWordsPlain(order, m);
    LexSpaced(words, Space, []);
    assert [] + words == words;
    AllWordsParsed(order, m);
    assert Steps(START, words).options == m;
  }
}
