/** Pruning the build cache, oldest items first, when deleting an item may fail. */
module CachePrune {
  import opened Sorting

  datatype CacheItem = CacheItem(path: string, time: real, size: nat)

  /** What became of one attempt to rename an item away and remove it. */
  datatype Attempt = Removed | RenameFailed | RemoveFailed

  /** The order of a sort by time with the newest first. */
  predicate NewerFirst(a: CacheItem, b: CacheItem) { a.time >= b.time }

  function SizeOf(items: seq<CacheItem>): nat {
    if items == [] then 0 else SizeOf(items[..|items| - 1]) + items[|items| - 1].size
  }

  /** The item of the `j`-th attempt: the list is emptied from its end. */
  function Victim(sorted: seq<CacheItem>, j: nat): CacheItem
    requires j < |sorted|
  {
    sorted[|sorted| - 1 - j]
  }

  /** The items still there after `j` attempts: those not tried, and those that resisted. */
  function Survivors(sorted: seq<CacheItem>, attempts: nat -> Attempt, j: nat): seq<CacheItem>
    requires j <= |sorted|
  {
    sorted[..|sorted| - j] + Resisted(sorted, attempts, j)
  }

  function Resisted(sorted: seq<CacheItem>, attempts: nat -> Attempt, j: nat): seq<CacheItem>
    requires j <= |sorted|
  {
    if j == 0 then []
    else Resisted(sorted, attempts, j - 1) + if attempts(j - 1).Removed? then [] else [Victim(sorted, j - 1)]
  }

  lemma {:induction false} SizeAppend(a: seq<CacheItem>, b: seq<CacheItem>)
    ensures SizeOf(a + b) == SizeOf(a) + SizeOf(b)
    decreases |b|
  {
    if b == [] {
      assert a + b == a;
    } else {
      SizeAppend(a, b[..|b| - 1]);
      assert (a + b)[..|a + b| - 1] == a + b[..|b| - 1];
    }
  }

  lemma {:induction false} SizeSnoc(a: seq<CacheItem>, x: CacheItem)
    ensures SizeOf(a + [x]) == SizeOf(a) + x.size
  {
    assert (a + [x])[..|a|] == a;
  }

  lemma {:induction false} ResistedStep(sorted: seq<CacheItem>, attempts: nat -> Attempt, j: nat)
    requires j < |sorted|
    ensures SizeOf(Resisted(sorted, attempts, j + 1))
         == SizeOf(Resisted(sorted, attempts, j)) + (if attempts(j).Removed? then 0 else Victim(sorted, j).size)
  {
    var resisted := Resisted(sorted, attempts, j);
    assert resisted + [] == resisted;
    SizeSnoc(resisted, Victim(sorted, j));
  }

  lemma {:induction false} QueueStep(sorted: seq<CacheItem>, j: nat)
    requires j < |sorted|
    ensures SizeOf(sorted[..|sorted| - j]) == SizeOf(sorted[..|sorted| - (j + 1)]) + Victim(sorted, j).size
  {
    assert sorted[..|sorted| - j] == sorted[..|sorted| - (j + 1)] + [Victim(sorted, j)];
    SizeSnoc(sorted[..|sorted| - (j + 1)], Victim(sorted, j));
  }

  lemma {:induction false} SurvivorsStep(sorted: seq<CacheItem>, attempts: nat -> Attempt, j: nat)
    requires j < |sorted|
    ensures SizeOf(Survivors(sorted, attempts, j + 1))
         == SizeOf(Survivors(sorted, attempts, j)) - (if attempts(j).Removed? then Victim(sorted, j).size else 0)
  {
    SizeAppend(sorted[..|sorted| - j], Resisted(sorted, attempts, j));
    SizeAppend(sorted[..|sorted| - (j + 1)], Resisted(sorted, attempts, j + 1));
    ResistedStep(sorted, attempts, j);
    QueueStep(sorted, j);
  }

  lemma {:induction false} SizeOfPermutation(a: seq<CacheItem>, b: seq<CacheItem>)
    requires multiset(a) == multiset(b)
    ensures SizeOf(a) == SizeOf(b)
  {
    var size := (s: seq<CacheItem>) => SizeOf(s) as real;
    forall x, y ensures AddsUp(size, x, y) { SizeAppend(x, y); }
    AdditivePermutation(size, a, b);
    assert size(a) == size(b);
  }

  /** If every attempt works, nothing is left. */
  lemma {:induction false} NothingResisted(sorted: seq<CacheItem>, attempts: nat -> Attempt, j: nat)
    requires j <= |sorted| && forall k :: 0 <= k < j ==> attempts(k).Removed?
    ensures Resisted(sorted, attempts, j) == []
  {
    if j > 0 {
      NothingResisted(sorted, attempts, j - 1);
    }
  }

  /** The size left after `j` attempts, one subtraction at a time. */
  ghost function LeftAfter(sorted: seq<CacheItem>, attempts: nat -> Attempt, j: nat): int
    requires j <= |sorted|
  {
    if j == 0 then SizeOf(sorted)
    else LeftAfter(sorted, attempts, j - 1) - (if attempts(j - 1).Removed? then Victim(sorted, j - 1).size else 0)
  }

  lemma {:induction false} AllSurviveAtFirst(sorted: seq<CacheItem>, attempts: nat -> Attempt)
    ensures Survivors(sorted, attempts, 0) == sorted
  {
    assert sorted[..|sorted|] + [] == sorted;
  }

  /** The tracked size is the size of what was not successfully removed. */
  lemma {:induction false} LeftIsSurvivors(sorted: seq<CacheItem>, attempts: nat -> Attempt, j: nat)
    requires j <= |sorted|
    ensures LeftAfter(sorted, attempts, j) == SizeOf(Survivors(sorted, attempts, j))
  {
    if j == 0 {
      AllSurviveAtFirst(sorted, attempts);
    } else {
      LeftIsSurvivors(sorted, attempts, j - 1);
      SurvivorsStep(sorted, attempts, j - 1);
    }
  }

  /** Attempts never add to the size, so a size once below the target stays there. */
  lemma {:induction false} LeftDecreases(sorted: seq<CacheItem>, attempts: nat -> Attempt, i: nat, j: nat)
    requires i <= j <= |sorted|
    ensures LeftAfter(sorted, attempts, j) <= LeftAfter(sorted, attempts, i)
    decreases j
  {
    if i < j {
      LeftDecreases(sorted, attempts, i, j - 1);
    }
  }

  /** A trim that tries everything and does not reach a positive target met a failing deletion. */
  lemma {:induction false} FailureNeedsFailedAttempt(sorted: seq<CacheItem>, target: real, attempts: nat -> Attempt)
    requires target > 0.0 && SizeOf(Survivors(sorted, attempts, |sorted|)) as real >= target
    ensures exists j :: 0 <= j < |sorted| && !attempts(j).Removed?
  {
    if forall j :: 0 <= j < |sorted| ==> attempts(j).Removed? {
      NothingResisted(sorted, attempts, |sorted|);
    }
  }

  lemma {:induction false} OldestFirst(contents: seq<CacheItem>, i: nat, j: nat)
    requires i < j < |contents|
    ensures Victim(Sort(NewerFirst, contents), i).time <= Victim(Sort(NewerFirst, contents), j).time
  {
    SortSorted(NewerFirst, contents);
  }

  /** Deletes items from the end of the list until the size is below the target. `tried` counts the
      attempts, which go through `Victim` in turn, and `total` is the size believed to be left. */
  method Trim(sorted: seq<CacheItem>, target: real, attempts: nat -> Attempt)
    returns (ok: bool, tried: nat, total: int)
    // the tracked size is the size of what was not successfully removed
    ensures tried <= |sorted| && total == SizeOf(Survivors(sorted, attempts, tried))
    // a trim succeeds exactly when it gets below the target ...
    ensures ok <==> total as real < target
    // ... and stops at the first moment it is there ...
    ensures forall j :: 0 <= j < tried ==> SizeOf(Survivors(sorted, attempts, j)) as real >= target
    // ... and fails only when everything was tried
    ensures !ok ==> tried == |sorted|
  {
    total, tried := TrimLoop(sorted, target, attempts);
    ok := total as real < target;
    LeftIsSurvivors(sorted, attempts, tried);
    forall j | 0 <= j < tried ensures SizeOf(Survivors(sorted, attempts, j)) as real >= target {
      LeftIsSurvivors(sorted, attempts, j);
      LeftDecreases(sorted, attempts, j, tried - 1);
    }
  }

  method TrimLoop(sorted: seq<CacheItem>, target: real, attempts: nat -> Attempt) returns (total: int, tried: nat)
    ensures tried <= |sorted| && total == LeftAfter(sorted, attempts, tried)
    ensures total as real < target || tried == |sorted|
    ensures tried > 0 ==> LeftAfter(sorted, attempts, tried - 1) as real >= target
  {
    total, tried := SizeOf(sorted), 0;
    var queue := sorted;
    while total as real >= target
      invariant 0 <= tried <= |sorted| && queue == sorted[..|sorted| - tried]
      invariant total == LeftAfter(sorted, attempts, tried)
      invariant tried > 0 ==> LeftAfter(sorted, attempts, tried - 1) as real >= target
      decreases |queue|
    {
      if queue == [] {
        return;
      }
      var item := queue[|queue| - 1];
      queue := queue[..|queue| - 1];
      if attempts(tried).Removed? {
        total := total - item.size;
      }
      tried := tried + 1;
    }
  }

  function Quota(cacheSizeGb: nat): nat {
    cacheSizeGb * 1024 * 1024 * 1024
  }

  /** The size a trim aims to get below. */
  function Target(cacheSizeGb: nat, cleanRatio: real): real {
    Quota(cacheSizeGb) as real * cleanRatio
  }

  lemma {:induction false} QuotaMeaning(cacheSizeGb: nat, cleanRatio: real)
    ensures Quota(cacheSizeGb) == 0x4000_0000 * cacheSizeGb
    ensures Target(cacheSizeGb, cleanRatio) == cleanRatio * (0x4000_0000 * cacheSizeGb) as real
    ensures cleanRatio <= 1.0 ==> Target(cacheSizeGb, cleanRatio) <= Quota(cacheSizeGb) as real
  {
    var quota := Quota(cacheSizeGb) as real;
    assert cleanRatio <= 1.0 ==> (1.0 - cleanRatio) * quota >= 0.0;
  }

  /** Nothing is touched within the quota; otherwise the cache is trimmed to a part of it. */
  method PruneCache(contents: seq<CacheItem>, cacheSizeGb: nat, cleanRatio: real, attempts: nat -> Attempt)
    returns (ok: bool, tried: nat, total: int)
    ensures tried <= |contents| && total == SizeOf(Survivors(Sort(NewerFirst, contents), attempts, tried))
    ensures SizeOf(contents) < Quota(cacheSizeGb) ==> ok && tried == 0
    ensures SizeOf(contents) >= Quota(cacheSizeGb) ==> (ok <==> total as real < Target(cacheSizeGb, cleanRatio))
    // a gigabyte is 2^30 bytes, and a ratio of at most one never leaves more than the quota
    ensures ok && 0.0 < cleanRatio <= 1.0 ==> total < 0x4000_0000 * cacheSizeGb
    ensures forall j :: 0 <= j < tried ==>
              SizeOf(Survivors(Sort(NewerFirst, contents), attempts, j)) as real >= Target(cacheSizeGb, cleanRatio)
    ensures !ok ==> tried == |contents|
  {
    QuotaMeaning(cacheSizeGb, cleanRatio);
    if SizeOf(contents) >= Quota(cacheSizeGb) {
      ok, tried, total := Trim(Sort(NewerFirst, contents), Target(cacheSizeGb, cleanRatio), attempts);
    } else {
      LeftIsSurvivors(Sort(NewerFirst, contents), attempts, 0);
      SizeOfPermutation(contents, Sort(NewerFirst, contents));
      return true, 0, SizeOf(contents);
    }
  }
}
