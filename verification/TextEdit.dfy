/** Decimal numerals, and replacing characters of a text by strings all at once. */
module TextEdit {

  predicate IsDigit(c: char) { '0' as int <= c as int <= '9' as int }

  predicate IsNumeral(s: string) { |s| > 0 && forall c :: c in s ==> IsDigit(c) }

  function Digit(d: nat): (c: char)
    requires d < 10
    ensures IsDigit(c) && c as int - '0' as int == d
  {
    ('0' as int + d) as char
  }

  /** The value of a string of digits, as `int` reads it. */
  function ToInt(s: string): nat
    requires forall c :: c in s ==> IsDigit(c)
  {
    if s == [] then 0
    else
      var n := |s| - 1;
      assert s[n] in s && IsDigit(s[n]);
      10 * ToInt(s[..n]) + (s[n] as int - '0' as int)
  }

  /** The string of digits `str` writes. */
  function Decimal(n: nat): (s: string)
    ensures IsNumeral(s)
    ensures n > 0 ==> s[0] != '0'
  {
    if n < 10 then [Digit(n)] else Decimal(n / 10) + [Digit(n % 10)]
  }

  lemma {:induction false} DecimalRoundTrip(n: nat)
    ensures ToInt(Decimal(n)) == n
  {
    if n < 10 {
      assert Decimal(n)[..0] == [];
    } else {
      DecimalRoundTrip(n / 10);
      assert Decimal(n)[..|Decimal(n)| - 1] == Decimal(n / 10);
    }
  }

  /** The text from position `i` on, with each listed position replaced by its string. */
  function Subst(text: string, edits: map<nat, string>, i: nat): string
    requires i <= |text|
    decreases |text| - i
  {
    if i == |text| then []
    else (if i in edits then edits[i] else [text[i]]) + Subst(text, edits, i + 1)
  }

  lemma {:induction false} SubstSkips(text: string, edits: map<nat, string>, i: nat, o: nat)
    requires i <= o <= |text| && forall k :: k in edits ==> !(i <= k < o)
    ensures Subst(text, edits, i) == text[i..o] + Subst(text, edits, o)
    decreases o - i
  {
    if i < o {
      SubstSkips(text, edits, i + 1, o);
      assert text[i..o] == [text[i]] + text[i + 1..o];
    }
  }

  lemma {:induction false} SubstAgrees(text: string, e: map<nat, string>, f: map<nat, string>, i: nat)
    requires i <= |text|
    requires forall k :: k >= i ==> (k in e <==> k in f) && (k in e ==> e[k] == f[k])
    ensures Subst(text, e, i) == Subst(text, f, i)
    decreases |text| - i
  {
    if i < |text| {
      SubstAgrees(text, e, f, i + 1);
    }
  }

  /** No edits, no change. */
  lemma {:induction false} SubstNothing(text: string)
    ensures Subst(text, map[], 0) == text
  {
    SubstSkips(text, map[], 0, |text|);
  }

  /** Editing one more position, below all those edited so far, where the text now stands. */
  lemma {:induction false} SubstOneMore(text: string, e: map<nat, string>, o: nat, c: string)
    requires o < |text| && forall k :: k in e ==> k > o
    ensures var now := Subst(text, e, 0);
            && o < |now| && now[o] == text[o]
            && Subst(text, e[o := c], 0) == now[..o] + c + now[o + 1..]
  {
    var now, tail := Subst(text, e, 0), Subst(text, e, o + 1);
    SubstSkips(text, e, 0, o);
    SubstSkips(text, e[o := c], 0, o);
    SubstAgrees(text, e, e[o := c], o + 1);
    assert now == text[0..o] + ([text[o]] + tail);
    assert now[..o] == text[0..o] && now[o + 1..] == tail;
  }

  /** The lowest edited position now shows the first character written there. */
  lemma {:induction false} SubstLowest(text: string, e: map<nat, string>, o: nat)
    requires o < |text| && o in e && e[o] != [] && forall k :: k in e ==> k >= o
    ensures var now := Subst(text, e, 0); o < |now| && now[o] == e[o][0]
  {
    SubstSkips(text, e, 0, o);
  }

  /** The text before position `i`, with the edits made. */
  function Upto(text: string, edits: map<nat, string>, i: nat): string
    requires i <= |text|
  {
    if i == 0 then []
    else Upto(text, edits, i - 1) + if i - 1 in edits then edits[i - 1] else [text[i - 1]]
  }

  lemma {:induction false} SubstSplit(text: string, edits: map<nat, string>, i: nat)
    requires i <= |text|
    ensures Subst(text, edits, 0) == Upto(text, edits, i) + Subst(text, edits, i)
  {
    if i > 0 {
      SubstSplit(text, edits, i - 1);
    }
  }

  /** What a greedy run of digits matches at the start of a text. */
  function DigitRun(s: string): (r: string)
    ensures |r| <= |s| && r == s[..|r|] && (forall c :: c in r ==> IsDigit(c))
    ensures |r| < |s| ==> !IsDigit(s[|r|])
  {
    if s == [] || !IsDigit(s[0]) then [] else [s[0]] + DigitRun(s[1..])
  }

  lemma {:induction false} DigitRunExact(r: string, rest: string)
    requires forall c :: c in r ==> IsDigit(c)
    requires rest != [] ==> !IsDigit(rest[0])
    ensures DigitRun(r + rest) == r
  {
    if r == [] {
      assert r + rest == rest;
    } else {
      DigitRunExact(r[1..], rest);
      assert r[0] in r && (r + rest)[1..] == r[1..] + rest;
    }
  }

  // ----- runs of digits in an edited text

  /** A whole run of digits stands at a position of the text. */
  ghost predicate RunAt(t: string, o: nat, z: string) {
    && IsNumeral(z) && o + |z| <= |t| && t[o..o + |z|] == z
    && (o + |z| < |t| ==> !IsDigit(t[o + |z|]))
    && (o > 0 ==> !IsDigit(t[o - 1]))
  }

  lemma {:induction false} DigitOfRun(t: string, o: nat, z: string, k: nat)
    requires RunAt(t, o, z) && o <= k < o + |z|
    ensures IsDigit(t[k])
  {
    assert t[k] == t[o..o + |z|][k - o] == z[k - o] && z[k - o] in z;
  }

  /** No edit falls inside the run that starts at `o`, or right behind it. */
  ghost predicate Clear(e: map<nat, string>, o: nat, z: string) {
    forall k :: k in e ==> !(o < k <= o + |z|)
  }

  /** Behind the run the text goes on as before, with no digit. */
  lemma {:induction false} BehindRun(t: string, e: map<nat, string>, o: nat, z: string)
    requires RunAt(t, o, z) && Clear(e, o, z)
    ensures var rest := Subst(t, e, o + |z|); rest != [] ==> !IsDigit(rest[0])
  {
    assert o + |z| !in e;
  }

  lemma {:induction false} ReadKept(t: string, e: map<nat, string>, o: nat, z: string)
    requires RunAt(t, o, z) && Clear(e, o, z) && o !in e
    ensures DigitRun(Subst(t, e, o)) == z
  {
    var rest := Subst(t, e, o + |z|);
    SubstSkips(t, e, o, o + |z|);
    assert Subst(t, e, o) == z + rest;
    BehindRun(t, e, o, z);
    DigitRunExact(z, rest);
  }

  /** Where the first digit of a run was replaced by a numeral, that numeral and the rest of the run
      are read. */
  lemma {:induction false} ReadEdited(t: string, e: map<nat, string>, o: nat, z: string, c: string)
    requires RunAt(t, o, z) && Clear(e, o, z) && o in e && e[o] == c && IsNumeral(c)
    ensures Subst(t, e, o) == c + z[1..] + Subst(t, e, o + |z|)
    ensures DigitRun(Subst(t, e, o)) == c + z[1..]
  {
    var rest := Subst(t, e, o + |z|);
    SubstEdited(t, e, o, z, c);
    BehindRun(t, e, o, z);
    assert forall d :: d in z[1..] ==> d in z;
    DigitRunExact(c + z[1..], rest);
  }

  lemma {:induction false} SubstEdited(t: string, e: map<nat, string>, o: nat, z: string, c: string)
    requires RunAt(t, o, z) && Clear(e, o, z) && o in e && e[o] == c
    ensures Subst(t, e, o) == c + z[1..] + Subst(t, e, o + |z|)
  {
    var rest := Subst(t, e, o + |z|);
    SubstSkips(t, e, o + 1, o + |z|);
    assert t[o + 1..o + |z|] == z[1..];
    assert c + (z[1..] + rest) == (c + z[1..]) + rest;
  }

  // ----- numerals with zeros behind them

  function Pow10(k: nat): (p: nat)
    ensures p >= 1 && (k > 0 ==> p >= 10)
  {
    if k == 0 then 1 else 10 * Pow10(k - 1)
  }

  lemma {:induction false} AllZeros(z: string)
    requires (forall c :: c in z ==> IsDigit(c)) && ToInt(z) == 0
    ensures forall c :: c in z ==> c == '0'
  {
    if z != [] {
      var front, last := z[..|z| - 1], z[|z| - 1];
      assert z == front + [last];
      assert forall c :: c in front ==> c in z;
      assert last in z && ToInt(z) == 10 * ToInt(front) + (last as int - '0' as int);
      AllZeros(front);
    }
  }

  lemma {:induction false} DecimalTimesTen(m: nat)
    requires m > 0
    ensures Decimal(10 * m) == Decimal(m) + "0"
  {
  }

  lemma {:induction false} PowStep(n: nat, k: nat)
    ensures n * Pow10(k + 1) == 10 * (n * Pow10(k))
    ensures n > 0 ==> n * Pow10(k) > 0
  {
  }

  /** Zeros behind a positive numeral multiply it. */
  lemma {:induction false} DecimalZeros(n: nat, z: string)
    requires n > 0 && forall c :: c in z ==> c == '0'
    ensures Decimal(n) + z == Decimal(n * Pow10(|z|))
    decreases |z|
  {
    if z == [] {
      assert Decimal(n) + z == Decimal(n);
    } else {
      var k := |z| - 1;
      assert z[k] in z && z == z[..k] + "0";
      assert forall c :: c in z[..k] ==> c in z;
      DecimalZeros(n, z[..k]);
      PowStep(n, k);
      DecimalTimesTen(n * Pow10(k));
      assert Decimal(n) + z == (Decimal(n) + z[..k]) + "0";
    }
  }

  // ----- how long a numeral is

  lemma {:induction false} ToIntBounds(s: string)
    requires IsNumeral(s)
    ensures ToInt(s) < Pow10(|s|)
    ensures s[0] != '0' ==> ToInt(s) >= Pow10(|s| - 1)
    decreases |s|
  {
    var n := |s| - 1;
    var front, d := s[..n], s[n] as int - '0' as int;
    assert s[n] in s && IsDigit(s[n]) && ToInt(s) == 10 * ToInt(front) + d;
    if n > 0 {
      assert forall c :: c in front ==> c in s;
      ToIntBounds(front);
    } else {
      assert front == [];
    }
  }

  lemma {:induction false} Pow10Monotone(a: nat, b: nat)
    requires a <= b
    ensures Pow10(a) <= Pow10(b)
    decreases b
  {
    if a < b {
      Pow10Monotone(a, b - 1);
    }
  }
}
