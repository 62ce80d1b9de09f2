/** What a scan finds after the fixer has written its codes, and exactly when the check then passes. */
module CodeRescan {
  import opened Wrappers
  import opened Sorting
  import opened TextEdit
  import opened ErrorCodes
  import opened CodeFixer

  /** The scan found the code in the text: a whole run of digits, since the patterns take digits
      greedily behind a bracket and blanks. */
  ghost predicate Stands(texts: map<string, string>, l: Location) {
    l.file in texts && RunAt(texts[l.file], l.offset, l.code)
  }

  ghost predicate AllStand(texts: map<string, string>, locs: seq<Location>) {
    forall l :: l in locs ==> Stands(texts, l)
  }

  /** The whole edit of one file. */
  function FileEdits(order: seq<Location>, next: nat, file: string): map<nat, string> {
    Edits(order, next, file, |order|)
  }

  /** The same location when scanned in the edited texts: the patterns look at no digits before a
      code, so it is found where it has moved to, with the digits it has there. */
  ghost function Rescan(texts: map<string, string>, order: seq<Location>, next: nat, l: Location): Location
    requires l.file in texts && l.offset <= |texts[l.file]|
  {
    var t, e := texts[l.file], FileEdits(order, next, l.file);
    var offset := |Upto(t, e, l.offset)|;
    SubstSplit(t, e, l.offset);
    l.(offset := offset, code := DigitRun(Fixed(texts, order, next, |order|)[l.file][offset..]))
  }

  lemma {:induction false} RescanReads(texts: map<string, string>, order: seq<Location>, next: nat, l: Location)
    requires l.file in texts && l.offset <= |texts[l.file]|
    ensures Rescan(texts, order, next, l).code == DigitRun(Subst(texts[l.file], FileEdits(order, next, l.file), l.offset))
  {
    var t, e := texts[l.file], FileEdits(order, next, l.file);
    SubstSplit(t, e, l.offset);
    assert Subst(t, e, 0)[|Upto(t, e, l.offset)|..] == Subst(t, e, l.offset);
  }

  // ----- one location

  /** No edit falls inside a code or right behind it. */
  lemma {:induction false} CodesClear(texts: map<string, string>, order: seq<Location>, next: nat, l: Location)
    requires AllStand(texts, order) && Stands(texts, l) && next > 0
    ensures Clear(FileEdits(order, next, l.file), l.offset, l.code)
  {
    forall k | k in FileEdits(order, next, l.file) && l.offset < k <= l.offset + |l.code| ensures false {
      EditsMeaning(order, next, l.file, |order|, k);
      var j :| 0 <= j < |order| && order[j].file == l.file && order[j].offset == k;
      assert Stands(texts, order[j]);
      DigitOfRun(texts[l.file], l.offset, l.code, k - 1);
    }
  }

  /** A location that was not written over is read as before. */
  lemma {:induction false} UneditedCode(texts: map<string, string>, order: seq<Location>, next: nat, l: Location)
    requires AllStand(texts, order) && Stands(texts, l) && next > 0
    requires l.offset !in FileEdits(order, next, l.file)
    ensures Rescan(texts, order, next, l).code == l.code
  {
    RescanReads(texts, order, next, l);
    CodesClear(texts, order, next, l);
    ReadKept(texts[l.file], FileEdits(order, next, l.file), l.offset, l.code);
  }

  lemma {:induction false} EditAt(texts: map<string, string>, order: seq<Location>, next: nat, i: nat, n: nat)
    requires n <= |order| && i < n && Editable(texts, order, n)
    ensures order[i].offset in Edits(order, next, order[i].file, n)
    ensures Edits(order, next, order[i].file, n)[order[i].offset] == Decimal(next + i)
  {
    if i < n - 1 {
      EditAt(texts, order, next, i, n - 1);
      assert !SameSpot(order[i], order[n - 1]);
    }
  }

  /** The number a scan finds at the `i`-th edited location. */
  function NewCode(order: seq<Location>, next: nat, i: nat): nat
    requires i < |order| && order[i].code != []
  {
    (next + i) * Pow10(|order[i].code| - 1)
  }

  lemma {:induction false} ZerosBehind(n: nat, z: string)
    requires n > 0 && IsNumeral(z) && ToInt(z) == 0
    ensures IsNumeral(Decimal(n) + z[1..]) && Decimal(n) + z[1..] == Decimal(n * Pow10(|z| - 1))
  {
    AllZeros(z);
    assert forall c :: c in z[1..] ==> c in z;
    DecimalZeros(n, z[1..]);
  }

  /** At an edited location the text goes on with the new code and what is left of the old one. */
  lemma {:induction false} EditedText(texts: map<string, string>, order: seq<Location>, next: nat, i: nat)
    requires AllStand(texts, order) && next > 0 && i < |order| && Editable(texts, order, |order|)
    ensures Stands(texts, order[i])
    ensures var t, e, l := texts[order[i].file], FileEdits(order, next, order[i].file), order[i];
            && Subst(t, e, l.offset) == Decimal(next + i) + l.code[1..] + Subst(t, e, l.offset + |l.code|)
            && DigitRun(Subst(t, e, l.offset)) == Decimal(next + i) + l.code[1..]
  {
    var l := order[i];
    assert Stands(texts, l);
    CodesClear(texts, order, next, l);
    EditAt(texts, order, next, i, |order|);
    ReadEdited(texts[l.file], FileEdits(order, next, l.file), l.offset, l.code, Decimal(next + i));
  }

  /** A scan of the edited text reads the two together: the new code itself exactly when the old one
      was a single digit. */
  lemma {:induction false} RescannedCode(texts: map<string, string>, order: seq<Location>, next: nat, i: nat)
    requires AllStand(texts, order) && next > 0 && i < |order| && Editable(texts, order, |order|)
    requires ZeroCode(order[i]) && Stands(texts, order[i])
    ensures Rescan(texts, order, next, order[i]).code == Decimal(next + i) + order[i].code[1..]
                                                      == Decimal(NewCode(order, next, i))
    ensures Rescan(texts, order, next, order[i]).code == Decimal(next + i) <==> |order[i].code| == 1
  {
    EditedText(texts, order, next, i);
    RescanReads(texts, order, next, order[i]);
    ZerosBehind(next + i, order[i].code);
  }

  // ----- the check after the fix

  /** The edited locations are the zero-coded errors, and every code scanned is below the new ones. */
  ghost predicate Planned(locs: seq<Location>, order: seq<Location>, next: nat) {
    && Scanned(locs) && Distinct(order)
    && (forall i :: 0 <= i < |order| ==> order[i].code != [])
    && (forall l :: l in order <==> IsError(locs, l) && ZeroCode(l))
    && (forall l :: l in locs ==> ToInt(l.code) < next)
  }

  /** The scanned codes stand in the texts, and the fixer got through the planned edits. */
  ghost predicate Repaired(texts: map<string, string>, locs: seq<Location>, order: seq<Location>, next: nat) {
    AllStand(texts, locs) && Planned(locs, order, next) && next > 0 && Editable(texts, order, |order|)
  }

  /** Whether a location is an error depends on its code alone, so of all locations at one spot
      either all are edited or none is. */
  lemma {:induction false} SpotNotEdited(texts: map<string, string>, locs: seq<Location>, order: seq<Location>,
                                         next: nat, l: Location)
    requires Repaired(texts, locs, order, next) && l in locs && l !in order
    ensures l.offset !in FileEdits(order, next, l.file)
  {
    if l.offset in FileEdits(order, next, l.file) {
      EditsMeaning(order, next, l.file, |order|, l.offset);
      var j :| 0 <= j < |order| && order[j].file == l.file && order[j].offset == l.offset;
      assert order[j] in order && Stands(texts, order[j]) && Stands(texts, l);
      SameRun(texts[l.file], l.offset, order[j].code, l.code);
    }
  }

  lemma {:induction false} SameRun(t: string, o: nat, y: string, z: string)
    requires RunAt(t, o, y) && RunAt(t, o, z)
    ensures y == z
  {
    if |y| < |z| {
      DigitOfRun(t, o, z, o + |y|);
    } else if |z| < |y| {
      DigitOfRun(t, o, y, o + |z|);
    }
  }

  /** The code to be read at a location after the fix. */
  ghost predicate ReadsAs(order: seq<Location>, next: nat, l: Location, code: string) {
    && IsNumeral(code)
    && (l !in order ==> code == l.code)
    && (forall i :: 0 <= i < |order| && order[i] == l ==>
          l.code != [] && code == Decimal(NewCode(order, next, i)) && ToInt(code) == NewCode(order, next, i) >= next)
  }

  lemma {:induction false} CodeAfter(texts: map<string, string>, locs: seq<Location>, order: seq<Location>,
                                     next: nat, l: Location)
    requires Repaired(texts, locs, order, next) && l in locs && Stands(texts, l)
    ensures ReadsAs(order, next, l, Rescan(texts, order, next, l).code)
  {
    assert AllStand(texts, order);
    if l !in order {
      SpotNotEdited(texts, locs, order, next, l);
      UneditedCode(texts, order, next, l);
    } else {
      forall i | 0 <= i < |order| && order[i] == l
        ensures Rescan(texts, order, next, l).code == Decimal(NewCode(order, next, i))
        ensures ToInt(Decimal(NewCode(order, next, i))) == NewCode(order, next, i) >= next
      {
        RescannedCode(texts, order, next, i);
        DecimalRoundTrip(NewCode(order, next, i));
        NewCodeLarge(next + i, |l.code| - 1);
      }
    }
  }

  lemma {:induction false} NewCodeLarge(n: nat, k: nat)
    ensures n * Pow10(k) >= n
  {
  }

  /** What the scan before the fix must have been like: only zero codes repeat, at different
      locations, no code is too large, and neither are the new ones, which all differ. */
  ghost predicate Fixable(locs: seq<Location>, order: seq<Location>, next: nat)
    requires Scanned(locs) && forall i :: 0 <= i < |order| ==> order[i].code != []
  {
    && (forall i, j :: 0 <= i < j < |locs| && locs[i].code == locs[j].code ==> ToInt(locs[i].code) == 0 && locs[i] != locs[j])
    && (forall i :: 0 <= i < |locs| ==> ToInt(locs[i].code) <= MAXIMUM_CODE)
    && (forall i :: 0 <= i < |order| ==> NewCode(order, next, i) <= MAXIMUM_CODE)
    && (forall i, j :: 0 <= i < j < |order| ==> NewCode(order, next, i) != NewCode(order, next, j))
  }

  lemma {:induction false} ReadsOnce(order: seq<Location>, next: nat, l: Location, c: string, d: string)
    requires ReadsAs(order, next, l, c) && ReadsAs(order, next, l, d)
    ensures c == d
  {
  }

  lemma {:induction false} RepeatedZeroEdited(locs: seq<Location>, order: seq<Location>, next: nat, i: nat, j: nat)
    requires Planned(locs, order, next) && i < j < |locs| && locs[i].code == locs[j].code && ToInt(locs[i].code) == 0
    ensures locs[i] in order && locs[j] in order
  {
    FilterTwo(HasCode(locs[i].code), locs, i, j);
    assert locs[i] in locs && locs[j] in locs;
  }

  lemma {:induction false} UneditedDiffer(locs: seq<Location>, order: seq<Location>, next: nat, l: Location,
                                          m: Location,
                                          c: string, d: string)
    requires Planned(locs, order, next) && l in order && m in locs && m !in order
    requires ReadsAs(order, next, l, c) && ReadsAs(order, next, m, d)
    ensures c != d
  {
    var i :| 0 <= i < |order| && order[i] == l;
    assert ToInt(c) >= next > ToInt(d);
  }

  lemma {:induction false} DifferAfter(locs: seq<Location>, order: seq<Location>, next: nat, i: nat, j: nat,
                                       c: string, d: string)
    requires Planned(locs, order, next) && Fixable(locs, order, next) && i < j < |locs|
    requires ReadsAs(order, next, locs[i], c) && ReadsAs(order, next, locs[j], d)
    ensures c != d
  {
    var l, m := locs[i], locs[j];
    assert l in locs && m in locs;
    if l in order && m in order {
      var p, q :| 0 <= p < |order| && 0 <= q < |order| && order[p] == l && order[q] == m;
      assert l != m;
      assert ToInt(c) == NewCode(order, next, p) && ToInt(d) == NewCode(order, next, q);
    } else if l in order {
      UneditedDiffer(locs, order, next, l, m, c, d);
    } else if m in order {
      UneditedDiffer(locs, order, next, m, l, d, c);
    } else if l.code == m.code {
      RepeatedZeroEdited(locs, order, next, i, j);
    }
  }

  lemma {:induction false} FineAfter(locs: seq<Location>, order: seq<Location>, next: nat, i: nat, c: string)
    requires Planned(locs, order, next) && Fixable(locs, order, next) && i < |locs|
    requires ReadsAs(order, next, locs[i], c)
    ensures ToInt(c) <= MAXIMUM_CODE && c != "0"
  {
    var l := locs[i];
    assert l in locs;
    assert ToInt("0") == 0 by { assert "0"[..0] == []; }
    if l in order {
      var p :| 0 <= p < |order| && order[p] == l;
      assert ToInt(c) == NewCode(order, next, p) >= next > ToInt(l.code);
    }
  }

  lemma {:induction false} RepeatsWereZero(locs: seq<Location>, order: seq<Location>, next: nat, i: nat, j: nat,
                                           c: string, d: string)
    requires Planned(locs, order, next) && i < j < |locs| && locs[i].code == locs[j].code && c != d
    requires ReadsAs(order, next, locs[i], c) && ReadsAs(order, next, locs[j], d)
    ensures ToInt(locs[i].code) == 0 && locs[i] != locs[j]
  {
    if locs[i] == locs[j] {
      ReadsOnce(order, next, locs[i], c, d);
    }
  }

  /** A list holding, for each location of a scan, what is read there after the fix. */
  ghost predicate After(locs: seq<Location>, order: seq<Location>, next: nat, after: seq<Location>) {
    |after| == |locs| && forall i :: 0 <= i < |locs| ==> ReadsAs(order, next, locs[i], after[i].code)
  }

  lemma {:induction false} FixableSuffices(locs: seq<Location>, order: seq<Location>, next: nat, after: seq<Location>)
    requires Planned(locs, order, next) && After(locs, order, next, after) && Scanned(after) && Fixable(locs, order, next)
    ensures Clean(after)
  {
    CleanIff(after);
    forall i, j | 0 <= i < j < |after| ensures after[i].code != after[j].code {
      DifferAfter(locs, order, next, i, j, after[i].code, after[j].code);
    }
    forall i | 0 <= i < |after| ensures ToInt(after[i].code) <= MAXIMUM_CODE && after[i].code != "0" {
      FineAfter(locs, order, next, i, after[i].code);
    }
  }

  lemma {:induction false} NewCodesRead(locs: seq<Location>, order: seq<Location>, next: nat, after: seq<Location>,
                                        p: nat)
      returns (i: nat)
    requires Planned(locs, order, next) && After(locs, order, next, after) && p < |order|
    ensures i < |locs| && locs[i] == order[p] && after[i].code == Decimal(NewCode(order, next, p))
    ensures ToInt(after[i].code) == NewCode(order, next, p)
  {
    assert order[p] in order;
    i :| 0 <= i < |locs| && locs[i] == order[p];
    assert ReadsAs(order, next, locs[i], after[i].code);
  }

  lemma {:induction false} FixableNeeded(locs: seq<Location>, order: seq<Location>, next: nat, after: seq<Location>)
    requires Planned(locs, order, next) && After(locs, order, next, after) && Scanned(after) && Clean(after)
    ensures Fixable(locs, order, next)
  {
    CleanIff(after);
    forall i, j | 0 <= i < j < |locs| && locs[i].code == locs[j].code
      ensures ToInt(locs[i].code) == 0 && locs[i] != locs[j]
    {
      RepeatsWereZero(locs, order, next, i, j, after[i].code, after[j].code);
    }
    forall i | 0 <= i < |locs| ensures ToInt(locs[i].code) <= MAXIMUM_CODE {
      assert ReadsAs(order, next, locs[i], after[i].code);
    }
    forall p | 0 <= p < |order| ensures NewCode(order, next, p) <= MAXIMUM_CODE {
      var i := NewCodesRead(locs, order, next, after, p);
    }
    forall p, q | 0 <= p < q < |order| ensures NewCode(order, next, p) != NewCode(order, next, q) {
      var i := NewCodesRead(locs, order, next, after, p);
      var j := NewCodesRead(locs, order, next, after, q);
      assert i != j;
    }
  }

  ghost function RescanAll(texts: map<string, string>, locs: seq<Location>, order: seq<Location>,
                           next: nat): seq<Location>
    requires AllStand(texts, locs)
  {
    seq(|locs|, i requires 0 <= i < |locs| => assert locs[i] in locs; Rescan(texts, order, next, locs[i]))
  }

  /** Once the fixer has got through, the check of a new scan passes exactly when the scan before was
      fixable. */
  lemma {:induction false} CheckAfterFix(texts: map<string, string>, locs: seq<Location>, order: seq<Location>,
                                         next: nat)
    requires Repaired(texts, locs, order, next)
    ensures var after := RescanAll(texts, locs, order, next);
            Scanned(after) && (Clean(after) <==> Fixable(locs, order, next))
  {
    var after := RescanAll(texts, locs, order, next);
    forall i | 0 <= i < |locs| ensures ReadsAs(order, next, locs[i], after[i].code) {
      assert locs[i] in locs;
      CodeAfter(texts, locs, order, next, locs[i]);
    }
    if Fixable(locs, order, next) {
      FixableSuffices(locs, order, next, after);
    }
    if Clean(after) {
      FixableNeeded(locs, order, next, after);
    }
  }

  /** When only single-digit zeros are replaced, the new codes are consecutive and it is enough that
      the last one is in range. */
  lemma {:induction false} OneDigitNewCodes(order: seq<Location>, next: nat)
    requires forall i :: 0 <= i < |order| ==> |order[i].code| == 1
    ensures (forall i :: 0 <= i < |order| ==> NewCode(order, next, i) <= MAXIMUM_CODE)
       <==> (order != [] ==> next + |order| - 1 <= MAXIMUM_CODE)
    ensures forall i, j :: 0 <= i < j < |order| ==> NewCode(order, next, i) != NewCode(order, next, j)
  {
    forall i | 0 <= i < |order| ensures NewCode(order, next, i) == next + i {
      assert Pow10(0) == 1;
    }
    if order != [] {
      assert NewCode(order, next, |order| - 1) == next + |order| - 1;
    }
  }

  /** The whole command with `--fix`: scan, find the next code, write over the zeros. It needs two
      codes to find the next one. If it gets through its edits, the next check passes exactly when the
      scan was fixable. */
  method FixCodes(sources: Sources, locs: seq<Location>)
    returns (errors: seq<Location>, next: Option<nat>, order: seq<Location>, done: nat)
    requires AllStand(sources.texts, locs)
    modifies sources
    ensures (forall l :: l in errors <==> IsError(locs, l)) && order == EditOrder(errors)
    ensures next.Some? <==> |locs| >= 2
    ensures next.None? ==> done == 0 && sources.texts == old(sources.texts)
    ensures next.Some? ==> Planned(locs, order, next.value)
    ensures next.Some? ==> EditedUntil(old(sources.texts), order, next.value, done, sources.texts)
    ensures next.Some? && done == |order| ==>
              var after := RescanAll(old(sources.texts), locs, order, next.value);
              Scanned(after) && (Clean(after) <==> Fixable(locs, order, next.value))
  {
    var codes, dups;
    codes, errors, dups := ReadErrorCodes(locs);
    next, codes := GetNextCode(codes, locs);
    order, done := EditOrder(errors), 0;
    if next.Some? {
      ghost var texts := sources.texts;
      OrderPlanned(locs, errors, next.value);
      done := sources.ReplaceBadCodes(errors, next.value);
      if done == |order| {
        CheckAfterFix(texts, locs, order, next.value);
      }
    }
  }

  lemma {:induction false} OrderPlanned(locs: seq<Location>, errors: seq<Location>, next: nat)
    requires Scanned(locs) && (forall l :: l in errors <==> IsError(locs, l))
    requires forall l :: l in locs ==> ToInt(l.code) < next
    ensures Planned(locs, EditOrder(errors), next)
  {
    var order := EditOrder(errors);
    EditOrderDescends(errors);
    EditOrderElements(errors);
    forall i | 0 <= i < |order| ensures order[i].code != [] {
      assert order[i] in order;
    }
  }
}
