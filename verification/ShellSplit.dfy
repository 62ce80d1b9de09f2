/** What the shell lexer can make of a text: it never gains characters, and loses some wherever
    something is quoted or escaped. */
module ShellSplit {
  import opened Wrappers
  import opened MongodOptions

  // ----- the width of words

  /** The characters of the words, and one for the blank that goes with each. */
  function Width(words: seq<string>): nat {
    if words == [] then 0 else |words[0]| + 1 + Width(words[1..])
  }

  lemma {:induction false} WidthAppend(a: seq<string>, b: seq<string>)
    ensures Width(a + b) == Width(a) + Width(b)
  {
    if a == [] {
      assert a + b == b;
    } else {
      WidthAppend(a[1..], b);
      assert (a + b)[1..] == a[1..] + b;
    }
  }

  lemma {:induction false} WidthOne(w: string)
    ensures Width([w]) == |w| + 1
  {
    assert [w][1..] == [];
  }

  lemma {:induction false} WidthSnoc(words: seq<string>)
    requires words != []
    ensures Width(words) == Width(words[..|words| - 1]) + |words[|words| - 1]| + 1
  {
    var k := |words| - 1;
    assert words == words[..k] + [words[k]];
    WidthAppend(words[..k], [words[k]]);
    WidthOne(words[k]);
  }

  lemma {:induction false} SpacedWidth(words: seq<string>)
    ensures |Spaced(words)| == Width(words)
  {
    if words != [] {
      SpacedWidth(words[1..]);
    }
  }

  // ----- splitting loses quotes and escapes

  predicate NoQuoting(s: string) {
    forall c :: c in s ==> c != '\'' && c != '"' && c != '\\'
  }

  lemma {:induction false} EmitWidth(token: string, quoted: bool, words: seq<string>)
    ensures Width(Emit(token, quoted) + words) <= |token| + 1 + Width(words)
  {
    WidthAppend(Emit(token, quoted), words);
    WidthOne(token);
  }

  /** How wide the rest of a text can come out: a quotation must still be closed. */
  function Room(n: nat, mode: Mode): nat {
    if mode.Quote? then n else n + 1
  }

  lemma {:induction false} LexWidth(s: string, mode: Mode, token: string, quoted: bool)
    requires mode.Escape? ==> mode.back == Word || mode.back.Quote?
    requires Lex(s, mode, token, quoted).Some?
    ensures Width(Lex(s, mode, token, quoted).value) <= |token| + Room(|s|, mode)
    ensures (mode.Space? || mode.Word?) && !NoQuoting(s) ==> Width(Lex(s, mode, token, quoted).value) <= |token| + |s|
    decreases |s|
  {
    if s == [] {
      EmitWidth(token, quoted, []);
      assert Emit(token, quoted) + [] == Emit(token, quoted);
    } else {
      var c, rest := s[0], s[1..];
      assert s == [c] + rest;
      match mode
      case Quote(q) =>
        if c == q {
          LexWidth(rest, Word, token, true);
        } else if c == '\\' && q == '"' {
          LexWidth(rest, Escape(mode), token, true);
        } else {
          LexWidth(rest, mode, token + [c], true);
        }
      case Escape(back) => LexWidth(rest, back, token + Escaped(back, c), quoted);
      case _ =>
        if IsBlank(c) {
          LexWidth(rest, Space, [], false);
          EmitWidth(token, quoted, Lex(rest, Space, [], false).value);
        } else if c == '\'' || c == '"' {
          LexWidth(rest, Quote(c), token, quoted);
        } else if c == '\\' {
          LexWidth(rest, Escape(Word), token, quoted);
        } else {
          LexWidth(rest, Word, token + [c], quoted);
        }
    }
  }

  ghost predicate AllPlain(words: seq<string>) {
    forall w :: w in words ==> Plain(w)
  }

  lemma {:induction false} LexPlain(s: string, mode: Mode, token: string)
    requires NoQuoting(s) && Plain(token) && (mode == Space || mode == Word)
    ensures Lex(s, mode, token, false).Some? && AllPlain(Lex(s, mode, token, false).value)
    decreases |s|
  {
    if s != [] {
      var c, rest := s[0], s[1..];
      assert c in s && forall x :: x in rest ==> x in s;
      if IsBlank(c) {
        LexPlain(rest, Space, []);
      } else {
        LexPlain(rest, Word, token + [c]);
      }
    }
  }

  /** The words that come through the lexer as they are: those free of blanks, quotes and escapes. */
  lemma {:induction false} WordSurvivesIff(w: string)
    requires w != []
    ensures Split(w) == Some([w]) <==> Plain(w)
  {
    WidthOne(w);
    if Plain(w) {
      LexWord(w, [], Space, []);
      assert w + [] == w && [] + w == w;
    } else if Split(w).Some? {
      LexWidth(w, Space, [], false);
      if NoQuoting(w) {
        LexPlain(w, Space, []);
        assert w in [w];
      }
    }
  }

  /** A printed line is split into words no wider than it, and less wide if anything in it is quoted. */
  lemma {:induction false} LineWidth(words: seq<string>)
    requires Split(Spaced(words)).Some?
    ensures Width(Split(Spaced(words)).value) <= |Spaced(words)|
    ensures !NoQuoting(Spaced(words)) ==> Width(Split(Spaced(words)).value) < |Spaced(words)|
  {
    if words != [] {
      var x := words[0] + Spaced(words[1..]);
      assert Spaced(words) == " " + x;
      LexBlank(x, Space, []);
      LexWidth(x, Space, [], false);
      assert Split(Spaced(words)).value == Split(x).value;
      assert forall c :: c in Spaced(words) ==> c == ' ' || c in x;
    }
  }
}
