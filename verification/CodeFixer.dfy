/** Writing fresh codes over zero codes, file by file and from the last offset to the first. */
module CodeFixer {
  import opened Sorting
  import opened TextEdit
  import opened ErrorCodes

  predicate ZeroCode(l: Location) {
    IsNumeral(l.code) && ToInt(l.code) == 0
  }

  /** The order of Python tuples. */
  predicate LocationLeq(a: Location, b: Location) {
    if a.file != b.file then StringLeq(a.file, b.file)
    else if a.offset != b.offset then a.offset < b.offset
    else if a.lines != b.lines then StringLeq(a.lines, b.lines)
    else StringLeq(a.code, b.code)
  }

  lemma {:induction false} LocationOrder()
    ensures TotalPreorder(LocationLeq)
  {
    forall x, y ensures LocationLeq(x, y) || LocationLeq(y, x) {
      StringLeqTotal(x.file, y.file);
      StringLeqTotal(x.lines, y.lines);
      StringLeqTotal(x.code, y.code);
    }
    forall x, y, z | LocationLeq(x, y) && LocationLeq(y, z) ensures LocationLeq(x, z) {
      LocationLeqTransitive(x, y, z);
    }
  }

  lemma {:induction false} LocationLeqTransitive(x: Location, y: Location, z: Location)
    requires LocationLeq(x, y) && LocationLeq(y, z)
    ensures LocationLeq(x, z)
  {
    if x.file != y.file && y.file != z.file {
      StringLeqTransitive(x.file, y.file, z.file);
      if x.file == z.file {
        StringLeqAntisymmetric(x.file, y.file);
      }
    } else if x.file == y.file == z.file && x.offset == y.offset == z.offset {
      if x.lines != y.lines && y.lines != z.lines {
        StringLeqTransitive(x.lines, y.lines, z.lines);
        if x.lines == z.lines {
          StringLeqAntisymmetric(x.lines, y.lines);
        }
      } else if x.lines == y.lines == z.lines {
        StringLeqTransitive(x.code, y.code, z.code);
      }
    }
  }

  function Dedup<T(==)>(s: seq<T>): (r: seq<T>)
    ensures forall x :: x in r ==> x in s
    ensures forall x :: x in s ==> x in r
    ensures Distinct(r)
  {
    if s == [] then [] else if s[0] in s[1..] then Dedup(s[1..]) else [s[0]] + Dedup(s[1..])
  }

  /** The zero-coded locations, once each, in descending order. */
  function EditOrder(errors: seq<Location>): seq<Location> {
    Reverse(Sort(LocationLeq, Dedup(Filter(ZeroCode, errors))))
  }

  ghost predicate Descending(order: seq<Location>) {
    Distinct(order) && forall i, j :: 0 <= i < j < |order| ==> LocationLeq(order[j], order[i])
  }

  lemma {:induction false} EditOrderElements(errors: seq<Location>)
    ensures forall l :: l in EditOrder(errors) <==> l in errors && ZeroCode(l)
  {
    var zeros := Dedup(Filter(ZeroCode, errors));
    SameElements(zeros, Sort(LocationLeq, zeros));
    ReverseElements(Sort(LocationLeq, zeros));
  }

  /** Files come from last to first in the alphabet, and in a file the later offsets come first. */
  ghost predicate LastFirst(a: Location, b: Location) {
    if a.file != b.file then Alphabetical(b.file, a.file) else a.offset >= b.offset
  }

  lemma {:induction false} LocationLeqMeaning(a: Location, b: Location)
    requires LocationLeq(b, a)
    ensures LastFirst(a, b)
  {
    StringLeqMeaning(b.file, a.file);
  }

  lemma {:induction false} EditOrderDescends(errors: seq<Location>)
    ensures Descending(EditOrder(errors))
    ensures forall i, j :: 0 <= i < j < |EditOrder(errors)| ==> LastFirst(EditOrder(errors)[i], EditOrder(errors)[j])
  {
    var zeros := Dedup(Filter(ZeroCode, errors));
    LocationOrder();
    SortSorted(LocationLeq, zeros);
    DistinctByCount(zeros, Sort(LocationLeq, zeros));
    ReverseElements(Sort(LocationLeq, zeros));
    ReverseSorted(LocationLeq, Sort(LocationLeq, zeros));
    var order := EditOrder(errors);
    forall i, j | 0 <= i < j < |order| ensures LastFirst(order[i], order[j]) {
      LocationLeqMeaning(order[i], order[j]);
    }
  }

  // ----- when the edits go through, and what they amount to

  /** The checked file has a zero where the location says. */
  predicate InText(texts: map<string, string>, l: Location) {
    l.file in texts && l.offset < |texts[l.file]| && texts[l.file][l.offset] == '0'
  }

  predicate SameSpot(a: Location, b: Location) {
    a.file == b.file && a.offset == b.offset
  }

  /** The first `n` locations are zeros of the original texts, at different spots. */
  ghost predicate Editable(texts: map<string, string>, order: seq<Location>, n: nat)
    requires n <= |order|
  {
    && (forall i :: 0 <= i < n ==> InText(texts, order[i]))
    && (forall i, j :: 0 <= i < j < n ==> !SameSpot(order[i], order[j]))
  }

  /** What the first `n` locations write into a file: consecutive codes, by offset. */
  function Edits(order: seq<Location>, next: nat, file: string, n: nat): map<nat, string>
    requires n <= |order|
  {
    if n == 0 then map[]
    else
      var m, l := Edits(order, next, file, n - 1), order[n - 1];
      if l.file == file then m[l.offset := Decimal(next + n - 1)] else m
  }

  /** Every edit applied to the original texts at once. */
  function Fixed(texts: map<string, string>, order: seq<Location>, next: nat, n: nat): map<string, string>
    requires n <= |order|
  {
    map f | f in texts :: Subst(texts[f], Edits(order, next, f, n), 0)
  }

  lemma {:induction false} EditsMeaning(order: seq<Location>, next: nat, file: string, n: nat, o: nat)
    requires n <= |order| && next > 0
    ensures o in Edits(order, next, file, n) <==> exists j :: 0 <= j < n && order[j].file == file && order[j].offset == o
    ensures o in Edits(order, next, file, n) ==>
              var c := Edits(order, next, file, n)[o]; c != [] && c[0] != '0'
  {
    if n > 0 {
      EditsMeaning(order, next, file, n - 1, o);
      if order[n - 1].file == file && order[n - 1].offset == o {
        assert o in Edits(order, next, file, n);
      }
    }
  }

  lemma {:induction false} EditsBelow(order: seq<Location>, next: nat, n: nat, o: nat)
    requires Descending(order) && n < |order| && next > 0 && o in Edits(order, next, order[n].file, n)
    ensures o >= order[n].offset
  {
    EditsMeaning(order, next, order[n].file, n, o);
    var j :| 0 <= j < n && order[j].file == order[n].file && order[j].offset == o;
    assert LocationLeq(order[n], order[j]);
  }

  lemma {:induction false} EditsInside(texts: map<string, string>, order: seq<Location>, next: nat, n: nat,
                                       file: string, o: nat)
    requires n <= |order| && next > 0 && Editable(texts, order, n) && o in Edits(order, next, file, n)
    ensures file in texts && o < |texts[file]|
  {
    EditsMeaning(order, next, file, n, o);
    var j :| 0 <= j < n && order[j].file == file && order[j].offset == o;
    assert InText(texts, order[j]);
  }

  lemma {:induction false} ZeroInEditedText(text: string, e: map<nat, string>, o: nat)
    requires o !in e && forall k :: k in e ==> o <= k < |text|
    ensures var now := Subst(text, e, 0);
            (o < |now| && now[o] == '0') <==> (o < |text| && text[o] == '0')
  {
    if o < |text| {
      SubstOneMore(text, e, o, "");
    } else {
      SubstSkips(text, e, 0, |text|);
    }
  }

  lemma {:induction false} SpotTaken(texts: map<string, string>, order: seq<Location>, next: nat, n: nat)
    requires Descending(order) && n < |order| && next > 0 && Editable(texts, order, n)
    requires order[n].offset in Edits(order, next, order[n].file, n)
    ensures !InText(Fixed(texts, order, next, n), order[n])
    ensures !Editable(texts, order, n + 1)
  {
    var l := order[n];
    var e := Edits(order, next, l.file, n);
    EditsMeaning(order, next, l.file, n, l.offset);
    var j :| 0 <= j < n && order[j].file == l.file && order[j].offset == l.offset;
    assert SameSpot(order[j], l) && InText(texts, order[j]);
    forall k | k in e ensures k >= l.offset { EditsBelow(order, next, n, k); }
    SubstLowest(texts[l.file], e, l.offset);
  }

  /** Because edits run backwards, the edited texts show a zero at the next spot exactly when the
      original does and the spot has not been written yet. */
  lemma {:induction false} ZeroStillThere(texts: map<string, string>, order: seq<Location>, next: nat, n: nat)
    requires Descending(order) && n < |order| && next > 0 && Editable(texts, order, n)
    ensures InText(Fixed(texts, order, next, n), order[n]) <==> Editable(texts, order, n + 1)
  {
    var l := order[n];
    var e := Edits(order, next, l.file, n);
    if l.offset in e {
      SpotTaken(texts, order, next, n);
    } else if l.file in texts {
      EditsMeaning(order, next, l.file, n, l.offset);
      assert forall j :: 0 <= j < n ==> !SameSpot(order[j], l);
      forall k | k in e ensures l.offset <= k < |texts[l.file]| {
        EditsBelow(order, next, n, k);
        EditsInside(texts, order, next, n, l.file, k);
      }
      ZeroInEditedText(texts[l.file], e, l.offset);
    } else {
      assert !InText(texts, l);
    }
  }

  /** Writing over a file that is not truncated leaves the old tail behind. */
  function Overwrite(before: string, text: string): string {
    if |text| >= |before| then text else text + before[|text|..]
  }

  /** Rewriting a file with one character replaced by a code. */
  function Rewrite(text: string, offset: nat, code: string): string
    requires offset < |text|
  {
    Overwrite(text, text[..offset] + code + text[offset + 1..])
  }

  /** The texts after one file has been rewritten. */
  function WithEdit(texts: map<string, string>, l: Location, code: string): map<string, string>
    requires InText(texts, l)
  {
    texts[l.file := Rewrite(texts[l.file], l.offset, code)]
  }

  /** The texts are the original ones with the first `n` locations edited. */
  ghost predicate Edited(original: map<string, string>, order: seq<Location>, next: nat, n: nat, texts: map<string,
                         string>) {
    n <= |order| && Editable(original, order, n) && texts == Fixed(original, order, next, n)
  }

  /** And the next location, if there is one, could not be edited. */
  ghost predicate EditedUntil(original: map<string, string>, order: seq<Location>, next: nat, n: nat,
                              texts: map<string, string>) {
    Edited(original, order, next, n, texts) && (n < |order| ==> !Editable(original, order, n + 1))
  }

  /** One edit: the check of the current text passes exactly when one more location is editable, and
      rewriting the file then gives the texts with one more location edited. */
  lemma {:induction false} EditTurn(original: map<string, string>, order: seq<Location>, next: nat, i: nat,
                                    texts: map<string, string>)
    requires Descending(order) && i < |order| && next > 0 && Edited(original, order, next, i, texts)
    ensures InText(texts, order[i]) <==> Editable(original, order, i + 1)
    ensures InText(texts, order[i]) ==> Edited(original, order, next, i + 1, WithEdit(texts, order[i], Decimal(next + i)))
  {
    ZeroStillThere(original, order, next, i);
    if InText(texts, order[i]) {
      FixedStep(original, order, next, i);
    }
  }

  class Sources {
    var texts: map<string, string>

    /** Replaces zero codes by `next`, `next + 1`, and so on, stopping at the first location whose
        character is not a zero. It makes as many edits as the original texts have zeros for at
        different spots, and leaves the texts with just these edits, made all at once. */
    method ReplaceBadCodes(errors: seq<Location>, next: nat) returns (done: nat)
      requires next > 0
      modifies this
      ensures EditedUntil(old(texts), EditOrder(errors), next, done, texts)
    {
      EditOrderDescends(errors);
      done := EditInTurn(EditOrder(errors), next);
    }

    /** The loop over the locations. */
    method EditInTurn(order: seq<Location>, next: nat) returns (done: nat)
      requires next > 0 && Descending(order)
      modifies this
      ensures EditedUntil(old(texts), order, next, done, texts)
    {
      ghost var original := texts;
      FixedNothing(texts, order, next);
      for i := 0 to |order|
        invariant Edited(original, order, next, i, texts)
      {
        EditTurn(original, order, next, i, texts);
        if !InText(texts, order[i]) {
          return i;
        }
        texts := WithEdit(texts, order[i], Decimal(next + i));
      }
      return |order|;
    }
  }

  lemma {:induction false} FixedNothing(texts: map<string, string>, order: seq<Location>, next: nat)
    ensures Fixed(texts, order, next, 0) == texts
  {
    forall f | f in texts ensures Subst(texts[f], map[], 0) == texts[f] { SubstNothing(texts[f]); }
  }

  lemma {:induction false} FixedStep(texts: map<string, string>, order: seq<Location>, next: nat, n: nat)
    requires Descending(order) && n < |order| && next > 0 && Editable(texts, order, n + 1)
    ensures var l := order[n];
            var before, after := Fixed(texts, order, next, n), Fixed(texts, order, next, n + 1);
            && l.file in before && l.offset < |before[l.file]|
            && after == before[l.file := Rewrite(before[l.file], l.offset, Decimal(next + n))]
  {
    var l := order[n];
    var e := Edits(order, next, l.file, n);
    assert InText(texts, l);
    forall k | k in e ensures k > l.offset {
      EditsBelow(order, next, n, k);
      EditsMeaning(order, next, l.file, n, k);
      if k == l.offset {
        var j :| 0 <= j < n && order[j].file == l.file && order[j].offset == k;
        assert SameSpot(order[j], l);
      }
    }
    SubstOneMore(texts[l.file], e, l.offset, Decimal(next + n));
  }

  // ----- the new codes

  /** The codes written are pairwise different and above every code scanned. */
  lemma {:induction false} NewCodesFresh(codes: seq<Location>, next: nat, i: nat, j: nat)
    requires Scanned(codes) && forall l :: l in codes ==> ToInt(l.code) < next
    ensures ToInt(Decimal(next + i)) == next + i
    ensures i != j ==> Decimal(next + i) != Decimal(next + j)
    ensures forall l :: l in codes ==> ToInt(l.code) < ToInt(Decimal(next + i)) && l.code != Decimal(next + i)
  {
    DecimalRoundTrip(next + i);
    DecimalRoundTrip(next + j);
  }

  /** Every location coded "0" is fixed, and a file without one keeps its text. */
  lemma {:induction false} AllZerosFixed(locs: seq<Location>, errors: seq<Location>)
    requires Scanned(locs) && forall l :: l in errors <==> IsError(locs, l)
    ensures forall l :: l in locs && l.code == "0" ==> l in EditOrder(errors)
    ensures forall l :: l in EditOrder(errors) ==> l in locs && ToInt(l.code) == 0
  {
    EditOrderElements(errors);
    assert ToInt("0") == 0 by { assert "0"[..0] == []; }
  }

  lemma {:induction false} UntouchedFile(texts: map<string, string>, order: seq<Location>, next: nat, file: string)
    requires next > 0 && file in texts && forall l :: l in order ==> l.file != file
    ensures Fixed(texts, order, next, |order|)[file] == texts[file]
  {
    forall o | o in Edits(order, next, file, |order|) ensures false {
      EditsMeaning(order, next, file, |order|, o);
    }
    SubstSkips(texts[file], Edits(order, next, file, |order|), 0, |texts[file]|);
  }
}
