/** Quoting for the shell lexer, in each of the ways it knows, and that the lexer undoes it. */
module ShellQuote {
  import opened Wrappers
  import opened MongodOptions

  /** Part of a word, and how it is written. */
  datatype Piece =
    | Plainly(w: string)
    | Backslashed(w: string)
    | SingleQuoted(w: string)
    | DoubleQuoted(w: string)
    | Unguarded(w: string)
  {
    /** Single quotes cannot hold a single quote, what is not quoted must be there, and in double quotes
        backslashes need no guard as long as what follows them is neither a backslash nor a quote. */
    predicate Proper() {
      match this
      case Plainly(w) => w != [] && forall c :: c in w ==> c !in " \t\r\n'\"\\"
      case Backslashed(w) => w != []
      case SingleQuoted(w) => '\'' !in w
      case DoubleQuoted(_) => true
      case Unguarded(w) => NeedsNoGuard(w)
    }

    predicate InQuotes() { SingleQuoted? || DoubleQuoted? || Unguarded? }

    function Text(): string {
      match this
      case Plainly(w) => w
      case Backslashed(w) => EachEscaped(w)
      case SingleQuoted(w) => "'" + w + "'"
      case DoubleQuoted(w) => "\"" + Guarded(w) + "\""
      case Unguarded(w) => "\"" + w + "\""
    }
  }

  predicate NeedsNoGuard(w: string) {
    '"' !in w && forall i :: 0 <= i < |w| && w[i] == '\\' ==> i + 1 < |w| && w[i + 1] != '\\'
  }

  /** A backslash before every character. */
  function EachEscaped(w: string): string {
    if w == [] then [] else ['\\', w[0]] + EachEscaped(w[1..])
  }

  /** A backslash before each backslash and each double quote. */
  function Guarded(w: string): string {
    if w == [] then []
    else (if w[0] == '\\' || w[0] == '"' then ['\\', w[0]] else [w[0]]) + Guarded(w[1..])
  }

  // ----- one piece

  lemma {:induction false} LexPlainly(w: string, rest: string, mode: Mode, token: string, quoted: bool)
    requires Plain(w) && (mode == Word || (mode == Space && w != []))
    ensures Lex(w + rest, mode, token, quoted) == Lex(rest, Word, token + w, quoted)
    decreases |w|
  {
    if w == [] {
      assert w + rest == rest && token + w == token;
    } else {
      assert (w + rest)[1..] == w[1..] + rest && w[0] in w;
      LexPlainly(w[1..], rest, Word, token + [w[0]], quoted);
      assert token + [w[0]] + w[1..] == token + w;
    }
  }

  lemma {:induction false} EscapeStep(c: char, s: string, mode: Mode, token: string, quoted: bool)
    requires mode == Word || mode == Space
    ensures Lex(['\\', c] + s, mode, token, quoted) == Lex(s, Word, token + [c], quoted)
  {
    var t := ['\\', c] + s;
    assert t[1..] == [c] + s && t[1..][1..] == s;
    assert Escaped(Word, c) == [c];
  }

  lemma {:induction false} LexBackslashed(w: string, rest: string, mode: Mode, token: string, quoted: bool)
    requires mode == Word || (mode == Space && w != [])
    ensures Lex(EachEscaped(w) + rest, mode, token, quoted) == Lex(rest, Word, token + w, quoted)
    decreases |w|
  {
    if w == [] {
      assert EachEscaped(w) + rest == rest && token + w == token;
    } else {
      var tail := EachEscaped(w[1..]) + rest;
      assert EachEscaped(w) + rest == ['\\', w[0]] + tail;
      EscapeStep(w[0], tail, mode, token, quoted);
      LexBackslashed(w[1..], rest, Word, token + [w[0]], quoted);
      assert token + [w[0]] + w[1..] == token + w;
    }
  }

  lemma {:induction false} LexSingle(w: string, rest: string, token: string, quoted: bool)
    requires '\'' !in w
    ensures Lex(w + "'" + rest, Quote('\''), token, quoted) == Lex(rest, Word, token + w, true)
    decreases |w|
  {
    var s := w + "'" + rest;
    if w == [] {
      assert s[0] == '\'' && s[1..] == rest && token + w == token;
    } else {
      assert w[0] in w && s[1..] == w[1..] + "'" + rest;
      LexSingle(w[1..], rest, token + [w[0]], true);
      assert token + [w[0]] + w[1..] == token + w;
    }
  }

  lemma {:induction false} LexDouble(w: string, rest: string, token: string, quoted: bool)
    ensures Lex(Guarded(w) + "\"" + rest, Quote('"'), token, quoted) == Lex(rest, Word, token + w, true)
    decreases |w|
  {
    var s := Guarded(w) + "\"" + rest;
    if w == [] {
      assert s[0] == '"' && s[1..] == rest && token + w == token;
    } else {
      var tail := Guarded(w[1..]) + "\"" + rest;
      LexDouble(w[1..], rest, token + [w[0]], true);
      assert token + [w[0]] + w[1..] == token + w;
      if w[0] == '\\' || w[0] == '"' {
        assert s[0] == '\\' && s[1..] == [w[0]] + tail && s[1..][1..] == tail;
        assert token + Escaped(Quote('"'), w[0]) == token + [w[0]];
      } else {
        assert s[0] == w[0] && s[1..] == tail;
      }
    }
  }

  lemma {:induction false} LexUnguarded(w: string, rest: string, token: string, quoted: bool)
    requires NeedsNoGuard(w)
    ensures Lex(w + "\"" + rest, Quote('"'), token, quoted) == Lex(rest, Word, token + w, true)
    decreases |w|
  {
    var s := w + "\"" + rest;
    if w == [] {
      assert s[0] == '"' && s[1..] == rest && token + w == token;
    } else if w[0] == '\\' {
      assert w[1] in w;
      KeptBackslash(w[1], w[2..] + "\"" + rest, token, quoted);
      assert s == ['\\', w[1]] + (w[2..] + "\"" + rest);
      LexUnguarded(w[2..], rest, token + ['\\', w[1]], true);
      assert token + ['\\', w[1]] + w[2..] == token + w;
    } else {
      assert w[0] in w && s[1..] == w[1..] + "\"" + rest;
      LexUnguarded(w[1..], rest, token + [w[0]], true);
      assert token + [w[0]] + w[1..] == token + w;
    }
  }

  lemma {:induction false} KeptBackslash(c: char, s: string, token: string, quoted: bool)
    requires c != '\\' && c != '"'
    ensures Lex(['\\', c] + s, Quote('"'), token, quoted) == Lex(s, Quote('"'), token + ['\\', c], true)
  {
    var t := ['\\', c] + s;
    assert t[1..] == [c] + s && t[1..][1..] == s;
    assert Escaped(Quote('"'), c) == ['\\', c];
  }

  lemma {:induction false} QuoteOpens(c: char, s: string, mode: Mode, token: string, quoted: bool)
    requires (c == '\'' || c == '"') && (mode == Word || mode == Space)
    ensures Lex([c] + s, mode, token, quoted) == Lex(s, Quote(c), token, quoted)
  {
    assert ([c] + s)[1..] == s;
  }

  lemma {:induction false} LexQuoted(c: char, w: string, text: string, rest: string, mode: Mode, token: string,
                                     quoted: bool)
    requires mode == Word || mode == Space
    requires || (c == '\'' && '\'' !in w && text == "'" + w + "'")
             || (c == '"' && text == "\"" + Guarded(w) + "\"")
             || (c == '"' && NeedsNoGuard(w) && text == "\"" + w + "\"")
    ensures Lex(text + rest, mode, token, quoted) == Lex(rest, Word, token + w, true)
  {
    var guarded := c == '"' && text == "\"" + Guarded(w) + "\"";
    var s := (if guarded then Guarded(w) else w) + [c] + rest;
    assert text + rest == [c] + s;
    QuoteOpens(c, s, mode, token, quoted);
    if guarded {
      LexDouble(w, rest, token, quoted);
    } else if c == '"' {
      LexUnguarded(w, rest, token, quoted);
    } else {
      LexSingle(w, rest, token, quoted);
    }
  }

  /** A piece adds what it stands for to the word begun. */
  lemma {:induction false} LexPiece(p: Piece, rest: string, mode: Mode, token: string, quoted: bool)
    requires p.Proper() && (mode == Word || mode == Space)
    ensures Lex(p.Text() + rest, mode, token, quoted) == Lex(rest, Word, token + p.w, quoted || p.InQuotes())
  {
    match p
    case Plainly(w) => LexPlainly(w, rest, mode, token, quoted);
    case Backslashed(w) => LexBackslashed(w, rest, mode, token, quoted);
    case SingleQuoted(w) => LexQuoted('\'', w, p.Text(), rest, mode, token, quoted);
    case DoubleQuoted(w) => LexQuoted('"', w, p.Text(), rest, mode, token, quoted);
    case Unguarded(w) => LexQuoted('"', w, p.Text(), rest, mode, token, quoted);
  }

  // ----- words made of pieces

  function Texts(pieces: seq<Piece>): string {
    if pieces == [] then [] else pieces[0].Text() + Texts(pieces[1..])
  }

  /** What the pieces stand for together. */
  function Meant(pieces: seq<Piece>): string {
    if pieces == [] then [] else pieces[0].w + Meant(pieces[1..])
  }

  predicate SomeInQuotes(pieces: seq<Piece>) {
    pieces != [] && (pieces[0].InQuotes() || SomeInQuotes(pieces[1..]))
  }

  predicate AllProper(pieces: seq<Piece>) {
    forall p :: p in pieces ==> p.Proper()
  }

  lemma {:induction false} LexPieces(pieces: seq<Piece>, rest: string, mode: Mode, token: string, quoted: bool)
    requires AllProper(pieces) && (mode == Word || (mode == Space && pieces != []))
    ensures Lex(Texts(pieces) + rest, mode, token, quoted)
         == Lex(rest, Word, token + Meant(pieces), quoted || SomeInQuotes(pieces))
    decreases |pieces|
  {
    if pieces == [] {
      assert Texts(pieces) + rest == rest && token + Meant(pieces) == token;
    } else {
      var p, tail := pieces[0], Texts(pieces[1..]) + rest;
      assert p in pieces;
      assert Texts(pieces) + rest == p.Text() + tail;
      LexPiece(p, tail, mode, token, quoted);
      LexPieces(pieces[1..], rest, Word, token + p.w, quoted || p.InQuotes());
      assert token + p.w + Meant(pieces[1..]) == token + Meant(pieces);
    }
  }

  /** A quoted word is never dropped, even if it stands for the empty one. */
  lemma {:induction false} PiecesEmit(pieces: seq<Piece>)
    requires AllProper(pieces) && pieces != []
    ensures Emit(Meant(pieces), SomeInQuotes(pieces)) == [Meant(pieces)]
  {
    assert pieces[0] in pieces;
  }

  // ----- lines of words

  /** A word with the blanks in front of it. */
  datatype Written = Written(gap: string, pieces: seq<Piece>) {
    predicate Proper() {
      Blank(gap) && pieces != [] && AllProper(pieces)
    }
  }

  predicate Blank(s: string) {
    forall c :: c in s ==> c in " \t\r\n"
  }

  function Line(ws: seq<Written>): string {
    if ws == [] then [] else ws[0].gap + Texts(ws[0].pieces) + Line(ws[1..])
  }

  function Values(ws: seq<Written>): seq<string> {
    if ws == [] then [] else [Meant(ws[0].pieces)] + Values(ws[1..])
  }

  /** The words are properly written and blanks keep them apart. */
  predicate ProperLine(ws: seq<Written>) {
    && (forall w :: w in ws ==> w.Proper())
    && (forall i :: 0 < i < |ws| ==> ws[i].gap != [])
  }

  lemma {:induction false} SkipBlanks(gap: string, rest: string)
    requires Blank(gap)
    ensures Split(gap + rest) == Split(rest)
    decreases |gap|
  {
    if gap == [] {
      assert gap + rest == rest;
    } else {
      assert gap[0] in gap && (gap + rest)[1..] == gap[1..] + rest;
      SkipBlanks(gap[1..], rest);
      assert forall words: seq<string> :: [] + words == words;
    }
  }

  /** Words in front of what the rest of a text gives. */
  function Before(words: seq<string>, rest: Option<seq<string>>): Option<seq<string>> {
    match rest
    case None => None
    case Some(more) => Some(words + more)
  }

  lemma {:induction false} WordEnds(rest: string, token: string, quoted: bool)
    requires rest != [] ==> IsBlank(rest[0])
    ensures Lex(rest, Word, token, quoted) == Before(Emit(token, quoted), Split(rest))
  {
    if rest == [] {
      assert Emit(token, quoted) + [] == Emit(token, quoted);
    } else {
      assert forall words: seq<string> :: [] + words == words;
    }
  }

  lemma {:induction false} WordBegins(w: Written, rest: string)
    requires w.Proper()
    ensures Split(w.gap + Texts(w.pieces) + rest) == Lex(rest, Word, Meant(w.pieces), SomeInQuotes(w.pieces))
  {
    var text := Texts(w.pieces) + rest;
    assert w.gap + Texts(w.pieces) + rest == w.gap + text;
    SkipBlanks(w.gap, text);
    LexPieces(w.pieces, rest, Space, [], false);
    assert [] + Meant(w.pieces) == Meant(w.pieces);
  }

  lemma {:induction false} FirstWord(w: Written, rest: string)
    requires w.Proper() && (rest != [] ==> IsBlank(rest[0]))
    ensures Split(w.gap + Texts(w.pieces) + rest) == Before([Meant(w.pieces)], Split(rest))
  {
    WordBegins(w, rest);
    WordEnds(rest, Meant(w.pieces), SomeInQuotes(w.pieces));
    PiecesEmit(w.pieces);
  }

  lemma {:induction false} BeforeBefore(v: string, words: seq<string>, rest: Option<seq<string>>)
    ensures Before([v], Before(words, rest)) == Before([v] + words, rest)
  {
    if rest.Some? {
      assert [v] + (words + rest.value) == [v] + words + rest.value;
    }
  }

  /** However the words of a line are written, splitting gives back exactly these words, and then what
      the text behind them gives. */
  lemma {:induction false} SplitUndoesQuoting(ws: seq<Written>, rest: string)
    requires ProperLine(ws) && (rest != [] ==> IsBlank(rest[0]))
    ensures Split(Line(ws) + rest) == Before(Values(ws), Split(rest))
    decreases |ws|
  {
    if ws == [] {
      assert Line(ws) + rest == rest;
      assert forall words: seq<string> :: [] + words == words;
    } else {
      var w, tail := ws[0], Line(ws[1..]) + rest;
      assert w in ws;
      assert Line(ws) + rest == w.gap + Texts(w.pieces) + tail;
      LineStarts(ws[1..], rest);
      FirstWord(w, tail);
      SplitUndoesQuoting(ws[1..], rest);
      BeforeBefore(Meant(w.pieces), Values(ws[1..]), Split(rest));
    }
  }

  lemma {:induction false} LineStarts(ws: seq<Written>, rest: string)
    requires (forall w :: w in ws ==> w.Proper() && w.gap != []) && (rest != [] ==> IsBlank(rest[0]))
    ensures Line(ws) + rest != [] ==> IsBlank((Line(ws) + rest)[0])
  {
    if ws == [] {
      assert Line(ws) + rest == rest;
    } else {
      assert ws[0] in ws && ws[0].gap[0] in ws[0].gap;
      assert (Line(ws) + rest)[0] == ws[0].gap[0];
    }
  }

  /** A line of words, with blanks behind it or not, is split into these words. */
  lemma {:induction false} SplitGivesWords(ws: seq<Written>, tail: string)
    requires ProperLine(ws) && Blank(tail)
    ensures Split(Line(ws) + tail) == Some(Values(ws))
  {
    assert tail != [] ==> tail[0] in tail;
    SplitUndoesQuoting(ws, tail);
    SkipBlanks(tail, []);
    assert tail + [] == tail && Values(ws) + [] == Values(ws);
  }

  // ----- what is not finished

  lemma {:induction false} OpenSingle(s: string, token: string, quoted: bool)
    requires '\'' !in s
    ensures Lex(s, Quote('\''), token, quoted) == None
    decreases |s|
  {
    if s != [] {
      assert s[0] in s;
      OpenSingle(s[1..], token + [s[0]], true);
    }
  }

  lemma {:induction false} OpenDouble(w: string, token: string, quoted: bool)
    ensures Lex(Guarded(w), Quote('"'), token, quoted) == None
    decreases |w|
  {
    if w != [] {
      var s := Guarded(w);
      OpenDouble(w[1..], token + [w[0]], true);
      if w[0] == '\\' || w[0] == '"' {
        assert s[0] == '\\' && s[1..] == [w[0]] + Guarded(w[1..]) && s[1..][1..] == Guarded(w[1..]);
        assert token + Escaped(Quote('"'), w[0]) == token + [w[0]];
      } else {
        assert s[1..] == Guarded(w[1..]);
      }
    }
  }

  /** A text that ends inside quotes or behind a backslash cannot be split, whatever words precede. */
  lemma {:induction false} UnfinishedFails(ws: seq<Written>, gap: string, w: string)
    requires ProperLine(ws) && Blank(gap) && (ws != [] ==> gap != [])
    ensures '\'' !in w ==> Split(Line(ws) + (gap + ("'" + w))) == None
    ensures Split(Line(ws) + (gap + ("\"" + Guarded(w)))) == None
    ensures Split(Line(ws) + (gap + "\\")) == None
  {
    if '\'' !in w {
      assert ("'" + w)[1..] == w;
      OpenSingle(w, [], false);
      BrokenTail(ws, gap, "'" + w);
    }
    assert ("\"" + Guarded(w))[1..] == Guarded(w);
    OpenDouble(w, [], false);
    BrokenTail(ws, gap, "\"" + Guarded(w));
    assert "\\"[1..] == [];
    BrokenTail(ws, gap, "\\");
  }

  lemma {:induction false} BrokenTail(ws: seq<Written>, gap: string, x: string)
    requires ProperLine(ws) && Blank(gap) && (ws != [] ==> gap != []) && Split(x) == None
    ensures Split(Line(ws) + (gap + x)) == None
  {
    SkipBlanks(gap, x);
    if ws == [] {
      assert Line(ws) + (gap + x) == gap + x;
    } else {
      assert gap[0] in gap && (gap + x)[0] == gap[0];
      SplitUndoesQuoting(ws, gap + x);
    }
  }

  // ----- quoted values

  lemma {:induction false} FlagProper(name: string, form: string)
    requires Plain(name) && (form == "-" || form == "--")
    ensures Plainly(form + name).Proper()
  {
    forall c | c in form + name ensures c !in " \t\r\n'\"\\" {
      assert c == '-' || c in name;
    }
  }

  lemma {:induction false} TwoSplit(a: Piece, b: Piece)
    requires a.Proper() && b.Proper()
    ensures Split(a.Text() + " " + b.Text()) == Some([a.w, b.w])
  {
    var ws := [Written("", [a]), Written(" ", [b])];
    OnePiece(a);
    OnePiece(b);
    TwoWords(ws[0], ws[1]);
    SplitGivesWords(ws, []);
    assert Line(ws) + [] == a.Text() + " " + b.Text();
  }

  /** A value in single quotes, of any characters but those, is read as it stands. */
  lemma {:induction false} QuotedValueParsed(name: string, form: string, v: string)
    requires ReadableFlag(name, form) && Plain(name) && name != []
    requires '\'' !in v && (v != [] ==> v[0] != '-')
    ensures Parsed(form + name + " '" + v + "'") == Some(map[name := Setting(Some(v), form)])
  {
    FlagProper(name, form);
    TwoSplit(Plainly(form + name), SingleQuoted(v));
    assert form + name + " " + ("'" + v + "'") == form + name + " '" + v + "'";
    ValueParsed(name, form, v);
  }

  lemma {:induction false} TwoWords(a: Written, b: Written)
    ensures Line([a, b]) == a.gap + Texts(a.pieces) + (b.gap + Texts(b.pieces))
    ensures Values([a, b]) == [Meant(a.pieces), Meant(b.pieces)]
  {
    assert [a, b][1..] == [b] && [b][1..] == [];
    assert Line([b]) == b.gap + Texts(b.pieces) && Values([b]) == [Meant(b.pieces)];
  }

  lemma {:induction false} OnePiece(p: Piece)
    ensures Texts([p]) == p.Text() && Meant([p]) == p.w
  {
    assert [p][1..] == [];
    assert p.Text() + [] == p.Text() && p.w + [] == p.w;
  }

  lemma {:induction false} ValueParsed(name: string, form: string, v: string)
    requires ReadableFlag(name, form) && name != [] && (v != [] ==> v[0] != '-')
    ensures Steps(START, [form + name, v]).Parse?
    ensures Steps(START, [form + name, v]).options == map[name := Setting(Some(v), form)]
  {
    StepsSnoc(START, [], form + name);
    assert [] + [form + name] == [form + name];
    NameWord(START, name, form);
    StepsSnoc(START, [form + name], v);
    assert [form + name] + [v] == [form + name, v];
  }
}
