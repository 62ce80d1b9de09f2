/** The assertion-code checker and the next free code. */
module ErrorCodes {
  import opened Wrappers
  import opened Sorting
  import opened TextEdit

  const MAXIMUM_CODE := 9999999

  /** Where an assertion code was matched; the pattern only matches digits. */
  datatype Location = Location(file: string, offset: nat, lines: string, code: string)

  ghost predicate Scanned(locs: seq<Location>) {
    forall l :: l in locs ==> IsNumeral(l.code)
  }

  // ----- finding duplicates in one pass

  function HasCode(c: string): Location -> bool {
    (l: Location) => l.code == c
  }

  /** The locations with this code, in the order they were scanned. */
  function WithCode(locs: seq<Location>, c: string): seq<Location> {
    Filter(HasCode(c), locs)
  }

  /** The locations that the checker must complain about. */
  ghost predicate IsError(locs: seq<Location>, l: Location)
    requires Scanned(locs)
  {
    l in locs && (|WithCode(locs, l.code)| >= 2 || ToInt(l.code) > MAXIMUM_CODE || l.code == "0")
  }

  lemma {:induction false} WithCodeSnoc(locs: seq<Location>, i: nat, c: string)
    requires i < |locs|
    ensures WithCode(locs[..i + 1], c) == WithCode(locs[..i], c) + if locs[i].code == c then [locs[i]] else []
  {
    assert locs[..i + 1] == locs[..i] + [locs[i]];
    FilterAppend(HasCode(c), locs[..i], [locs[i]]);
  }

  /** The tables the scan's callbacks share. */
  datatype Tally = Tally(
    codes: seq<Location>, seen: map<string, Location>, dups: map<string, seq<Location>>, errors: seq<Location>)
  {
    function ValidateCode(l: Location): Tally
      requires IsNumeral(l.code)
    {
      if ToInt(l.code) > MAXIMUM_CODE then this.(errors := errors + [l]) else this
    }

    function CheckDups(l: Location): Tally {
      var t := this.(codes := codes + [l]);
      if l.code !in seen then t.(seen := seen[l.code := l])
      else if l.code !in dups then
        t.(dups := dups[l.code := [seen[l.code]] + [l]], errors := errors + [seen[l.code]] + [l])
      else
        t.(dups := dups[l.code := dups[l.code] + [l]], errors := errors + [l])
    }

    /** The first location of a code, and all its locations once it was seen twice. */
    ghost predicate IndexesCode(locs: seq<Location>, c: string) {
      var all := WithCode(locs, c);
      && (c in seen <==> all != []) && (c in seen ==> seen[c] == all[0])
      && (c in dups <==> |all| >= 2) && (c in dups ==> dups[c] == all)
    }

    ghost predicate Indexes(locs: seq<Location>) {
      codes == locs && forall c :: IndexesCode(locs, c)
    }
  }

  /** Duplicated or too large, among the locations scanned so far. */
  ghost predicate Flagged(locs: seq<Location>, l: Location)
    requires Scanned(locs)
  {
    l in locs && (|WithCode(locs, l.code)| >= 2 || ToInt(l.code) > MAXIMUM_CODE)
  }

  lemma {:induction false} AddIndexesCode(locs: seq<Location>, i: nat, t: Tally, c: string)
    requires Scanned(locs) && i < |locs| && t.IndexesCode(locs[..i], c) && t.IndexesCode(locs[..i], locs[i].code)
    ensures t.ValidateCode(locs[i]).CheckDups(locs[i]).IndexesCode(locs[..i + 1], c)
  {
    WithCodeSnoc(locs, i, c);
  }

  lemma {:induction false} AddIndexes(locs: seq<Location>, i: nat, t: Tally)
    requires Scanned(locs) && i < |locs| && t.Indexes(locs[..i])
    ensures t.ValidateCode(locs[i]).CheckDups(locs[i]).Indexes(locs[..i + 1])
  {
    var u, now := t.ValidateCode(locs[i]).CheckDups(locs[i]), locs[..i + 1];
    assert now == locs[..i] + [locs[i]];
    forall c ensures u.IndexesCode(now, c) {
      assert t.IndexesCode(locs[..i], c) && t.IndexesCode(locs[..i], locs[i].code);
      AddIndexesCode(locs, i, t, c);
    }
  }

  /** What one more location adds to the flagged ones. */
  lemma {:induction false} FlaggedSnoc(locs: seq<Location>, i: nat, l: Location)
    requires Scanned(locs) && i < |locs|
    ensures var before, x := WithCode(locs[..i], locs[i].code), locs[i];
            Flagged(locs[..i + 1], l) <==>
              || Flagged(locs[..i], l)
              || (l == x && (before != [] || ToInt(x.code) > MAXIMUM_CODE))
              || (|before| == 1 && l == before[0])
  {
    var before, x := WithCode(locs[..i], locs[i].code), locs[i];
    assert locs[..i + 1] == locs[..i] + [x];
    WithCodeSnoc(locs, i, l.code);
    assert l in locs[..i] && l.code == x.code ==> l in before;
    assert before != [] ==> before[0] in before;
  }

  lemma {:induction false} AddFlags(locs: seq<Location>, i: nat, t: Tally)
    requires Scanned(locs) && i < |locs| && t.Indexes(locs[..i])
    requires forall l :: l in t.errors <==> Flagged(locs[..i], l)
    ensures forall l :: l in t.ValidateCode(locs[i]).CheckDups(locs[i]).errors <==> Flagged(locs[..i + 1], l)
  {
    assert t.IndexesCode(locs[..i], locs[i].code);
    forall l ensures l in t.ValidateCode(locs[i]).CheckDups(locs[i]).errors <==> Flagged(locs[..i + 1], l) {
      FlaggedSnoc(locs, i, l);
    }
  }

  method ReadErrorCodes(locs: seq<Location>)
    returns (codes: seq<Location>, errors: seq<Location>, dups: map<string, seq<Location>>)
    requires Scanned(locs)
    ensures codes == locs
    ensures forall c :: c in dups <==> |WithCode(locs, c)| >= 2
    ensures forall c :: c in dups ==> dups[c] == WithCode(locs, c)
    ensures forall l :: l in errors <==> IsError(locs, l)
  {
    var t := Tally([], map[], map[], []);
    assert locs[..0] == [];
    for i := 0 to |locs|
      invariant t.Indexes(locs[..i])
      invariant forall l :: l in t.errors <==> Flagged(locs[..i], l)
    {
      AddIndexes(locs, i, t);
      AddFlags(locs, i, t);
      t := t.ValidateCode(locs[i]).CheckDups(locs[i]);
    }
    assert locs[..|locs|] == locs;
    ghost var scan := t;
    assert scan.IndexesCode(locs, "0");
    if "0" in t.seen {
      t := t.(errors := t.errors + [t.seen["0"]]);
    }
    ZeroIsFirst(locs);
    forall c ensures c in t.dups <==> |WithCode(locs, c)| >= 2
             ensures c in t.dups ==> t.dups[c] == WithCode(locs, c)
    {
      assert scan.IndexesCode(locs, c);
    }
    return t.codes, t.errors, t.dups;
  }

  /** A zero code is an error: the only one is reported on its own, several are duplicates. */
  lemma {:induction false} ZeroIsFirst(locs: seq<Location>)
    requires Scanned(locs)
    ensures var zeros := WithCode(locs, "0");
            forall l :: IsError(locs, l) <==> Flagged(locs, l) || (zeros != [] && l == zeros[0])
  {
    var zeros := WithCode(locs, "0");
    assert zeros != [] ==> zeros[0] in zeros;
    forall l | l in locs && l.code == "0" ensures l in zeros {}
  }

  /** Nothing to complain about: codes are unique, in range and not "0". */
  ghost predicate Clean(locs: seq<Location>)
    requires Scanned(locs)
  {
    forall l :: l in locs ==> |WithCode(locs, l.code)| == 1 && ToInt(l.code) <= MAXIMUM_CODE && l.code != "0"
  }

  /** Codes of up to seven digits are in range; longer ones, unless they start with a zero, are not. */
  lemma {:induction false} SevenDigits(code: string)
    requires IsNumeral(code)
    ensures |code| <= 7 ==> ToInt(code) <= MAXIMUM_CODE
    ensures |code| > 7 && code[0] != '0' ==> ToInt(code) > MAXIMUM_CODE
  {
    assert Pow10(7) == 10000000 by {
      assert Pow10(1) == 10 && Pow10(2) == 100 && Pow10(3) == 1000 && Pow10(4) == 10000;
      assert Pow10(5) == 100000 && Pow10(6) == 1000000;
    }
    ToIntBounds(code);
    if |code| <= 7 {
      Pow10Monotone(|code|, 7);
    } else {
      Pow10Monotone(7, |code| - 1);
    }
  }

  /** Uniqueness, said of positions in the scan. */
  lemma {:induction false} CleanIff(locs: seq<Location>)
    requires Scanned(locs)
    ensures Clean(locs) <==>
              && (forall i, j :: 0 <= i < j < |locs| ==> locs[i].code != locs[j].code)
              && (forall i :: 0 <= i < |locs| ==> ToInt(locs[i].code) <= MAXIMUM_CODE && locs[i].code != "0")
  {
    forall i, j | 0 <= i < j < |locs| && locs[i].code == locs[j].code ensures !Clean(locs) {
      FilterTwo(HasCode(locs[i].code), locs, i, j);
    }
    forall l | l in locs && (forall i, j :: 0 <= i < j < |locs| ==> locs[i].code != locs[j].code)
      ensures |WithCode(locs, l.code)| == 1
    {
      assert l in WithCode(locs, l.code);
      if |WithCode(locs, l.code)| >= 2 {
        var i, j := FilterPair(HasCode(l.code), locs);
      }
    }
  }

  /** The check the build relies on. */
  method CheckErrorCodes(locs: seq<Location>) returns (ok: bool)
    requires Scanned(locs)
    ensures ok <==> Clean(locs)
  {
    var codes, errors, dups := ReadErrorCodes(locs);
    ok := |errors| == 0;
    forall l | l in locs ensures WithCode(locs, l.code) != [] {
      assert l in WithCode(locs, l.code);
    }
    if !ok {
      assert errors[0] in errors;
    }
  }

  /** What the fold over the codes passes along: a code as scanned, or a number. */
  datatype Value = Code(s: string) | Number(n: nat)

  function Int(v: Value): nat
    requires v.Code? ==> IsNumeral(v.s)
  {
    if v.Code? then ToInt(v.s) else v.n
  }

  function Larger(x: Value, y: Value): Value
    requires (x.Code? ==> IsNumeral(x.s)) && (y.Code? ==> IsNumeral(y.s))
  {
    Number(if Int(x) >= Int(y) then Int(x) else Int(y))
  }

  /** One more than the highest code known, scanning first if none is. Without codes there is nothing
      to fold, and a single one comes out as the string it is, to which no number can be added. */
  method GetNextCode(codes: seq<Location>, scan: seq<Location>) returns (next: Option<nat>, known: seq<Location>)
    requires Scanned(codes) && Scanned(scan)
    ensures known == if codes == [] then scan else codes
    ensures next.Some? <==> |known| >= 2
    ensures next.Some? ==> forall l :: l in known ==> ToInt(l.code) < next.value
    ensures next.Some? ==> exists l :: l in known && ToInt(l.code) + 1 == next.value
  {
    known := codes;
    if |known| == 0 {
      known := scan;
    }
    if |known| == 0 {
      return None, known;
    }
    var highest := Code(known[0].code);
    ghost var best := 0;
    for i := 1 to |known|
      invariant highest.Code? <==> i == 1
      invariant highest.Code? ==> IsNumeral(highest.s)
      invariant forall j :: 0 <= j < i ==> ToInt(known[j].code) <= Int(highest)
      invariant 0 <= best < i && ToInt(known[best].code) == Int(highest)
    {
      best := if Int(highest) >= ToInt(known[i].code) then best else i;
      highest := Larger(highest, Code(known[i].code));
    }
    next := if highest.Number? then Some(highest.n + 1) else None;
  }
}
