/** The linters' work pool: any number of worker threads share a queue, a stop event and a
    result flag. Every interleaving is a schedule that names the worker to move next. */
module WorkPool {
  import opened Sorting

  /** Where a worker is: each constructor is a point between two shared accesses. */
  datatype Pc =
    | AtCheck             // about to test the event
    | AtGet               // about to take an item without waiting
    | Running(item: nat)  // calling the function on this item
    | AtEmpty             // found the queue empty, about to set the event
    | AtFail              // the call returned False, about to clear the result
    | AtStop              // has cleared the result, about to set the event
    | Finished

  /** The queue is the list of items from `next` on; `ran` logs the completed calls. */
  datatype State = State(next: nat, event: bool, result: bool, workers: seq<Pc>, ran: seq<nat>) {
    function At(i: nat, pc: Pc): State
      requires i < |workers|
    {
      this.(workers := workers[i := pc])
    }

    predicate AllFinished() {
      forall i :: 0 <= i < |workers| ==> workers[i].Finished?
    }

    ghost predicate Some(pc: Pc) {
      exists i :: 0 <= i < |workers| && workers[i] == pc
    }
  }

  datatype Pool<!T> = Pool(items: seq<T>, func: T -> bool) {
    predicate Passes(j: nat) {
      j < |items| && func(items[j])
    }

    function Start(cpus: nat): State {
      State(0, false, true, seq(cpus, _ => AtCheck), [])
    }

    /** The next atomic step of worker `i`. */
    function Move(s: State, i: nat): State
      requires i < |s.workers|
    {
      match s.workers[i]
      case AtCheck => s.At(i, if s.event then Finished else AtGet)
      case AtGet => if s.next < |items| then s.At(i, Running(s.next)).(next := s.next + 1) else s.At(i, AtEmpty)
      case Running(j) => s.At(i, if Passes(j) then AtCheck else AtFail).(ran := s.ran + [j])
      case AtEmpty => s.At(i, Finished).(event := true)
      case AtFail => s.At(i, AtStop).(result := false)
      case AtStop => s.At(i, Finished).(event := true)
      case Finished => s
    }

    ghost predicate SomeFailed(s: State) {
      exists j :: j in s.ran && !Passes(j)
    }

    /** Each item taken is held by one worker or logged, never both and never twice. */
    ghost predicate ItemsAccounted(s: State) {
      && s.next <= |items| && Distinct(s.ran)
      && (forall j :: j in s.ran ==> j < s.next)
      && (forall i :: 0 <= i < |s.workers| && s.workers[i].Running? ==>
            s.workers[i].item < s.next && s.workers[i].item !in s.ran)
      && (forall i, k :: 0 <= i < k < |s.workers| && s.workers[i].Running? && s.workers[k].Running? ==>
            s.workers[i].item != s.workers[k].item)
      && (forall j :: 0 <= j < s.next && j !in s.ran ==> s.Some(Running(j)))
    }

    /** The result is cleared, or about to be, exactly when some item has failed. */
    ghost predicate FailuresSeen(s: State) {
      !s.result || s.Some(AtFail) <==> SomeFailed(s)
    }

    /** What the event and the result say about the items. */
    ghost predicate SignalsJustified(s: State) {
      && (s.event ==> s.next == |items| || !s.result)
      && FailuresSeen(s)
      && (forall i :: 0 <= i < |s.workers| ==>
            match s.workers[i]
            case AtEmpty => s.next == |items|
            case AtStop => !s.result
            case Finished => s.event
            case _ => true)
    }

    ghost predicate Inv(s: State) {
      ItemsAccounted(s) && SignalsJustified(s)
    }

    /** Taking the next item from the queue. */
    lemma {:induction false} TakeAccounts(s: State, i: nat)
      requires i < |s.workers| && ItemsAccounted(s) && s.workers[i].AtGet? && s.next < |items|
      ensures ItemsAccounted(Move(s, i))
    {
      var t := Move(s, i);
      forall j | 0 <= j < t.next && j !in t.ran ensures t.Some(Running(j)) {
        if j < s.next {
          var k :| 0 <= k < |s.workers| && s.workers[k] == Running(j);
          assert t.workers[k] == Running(j);
        } else {
          assert t.workers[i] == Running(j);
        }
      }
    }

    /** A step that neither takes an item nor completes one. */
    lemma {:induction false} IdleAccounts(s: State, t: State, i: nat, pc: Pc)
      requires i < |s.workers| && ItemsAccounted(s) && !s.workers[i].Running? && !pc.Running?
      requires t.workers == s.workers[i := pc] && t.next == s.next && t.ran == s.ran
      ensures ItemsAccounted(t)
    {
      forall j | 0 <= j < t.next && j !in t.ran ensures t.Some(Running(j)) {
        var k :| 0 <= k < |s.workers| && s.workers[k] == Running(j);
        assert t.workers[k] == Running(j);
      }
    }

    /** Completing an item. */
    lemma {:induction false} LogAccounts(s: State, i: nat)
      requires i < |s.workers| && ItemsAccounted(s) && s.workers[i].Running?
      ensures ItemsAccounted(Move(s, i))
    {
      var t, done := Move(s, i), s.workers[i].item;
      forall j | 0 <= j < t.next && j !in t.ran ensures t.Some(Running(j)) {
        assert j != done && j !in s.ran by {
          assert t.ran[|s.ran|] == done;
        }
        var k :| 0 <= k < |s.workers| && s.workers[k] == Running(j);
        assert t.workers[k] == Running(j);
      }
    }

    lemma {:induction false} MoveAccounts(s: State, i: nat)
      requires i < |s.workers| && ItemsAccounted(s)
      ensures ItemsAccounted(Move(s, i))
    {
      match s.workers[i]
      case AtGet =>
        if s.next < |items| {
          TakeAccounts(s, i);
        } else {
          IdleAccounts(s, Move(s, i), i, AtEmpty);
        }
      case Running(_) => LogAccounts(s, i);
      case Finished =>
      case _ => IdleAccounts(s, Move(s, i), i, Move(s, i).workers[i]);
    }

    lemma {:induction false} MoveKeepsFail(s: State, i: nat)
      requires i < |s.workers| && (!s.result || s.Some(AtFail))
      ensures !Move(s, i).result || Move(s, i).Some(AtFail)
    {
      if s.result {
        var k :| 0 <= k < |s.workers| && s.workers[k] == AtFail;
        assert Move(s, i).workers[k] == AtFail || !Move(s, i).result;
      }
    }

    lemma {:induction false} MoveFailures(s: State, i: nat)
      requires i < |s.workers| && FailuresSeen(s)
      ensures FailuresSeen(Move(s, i))
    {
      var t := Move(s, i);
      forall j | j in s.ran ensures j in t.ran {}
      if !s.result || s.Some(AtFail) {
        MoveKeepsFail(s, i);
      } else if s.workers[i].Running? {
        assert s.workers[i].item in t.ran && t.workers[i] == (if Passes(s.workers[i].item) then AtCheck else AtFail);
        assert t.workers[i] == AtFail ==> t.Some(AtFail);
      }
    }

    /** A cleared result is followed by the event. */
    ghost predicate FailureStops(s: State) {
      !s.result ==> s.event || s.Some(AtStop)
    }

    lemma {:induction false} MoveFailureStops(s: State, i: nat)
      requires i < |s.workers| && FailureStops(s)
      ensures FailureStops(Move(s, i))
    {
      var t := Move(s, i);
      assert t.workers[i] == AtStop ==> t.Some(AtStop);
      if !s.result && !s.event {
        var k :| 0 <= k < |s.workers| && s.workers[k] == AtStop;
        assert k != i ==> t.workers[k] == AtStop;
      }
    }

    lemma {:induction false} MoveSignals(s: State, i: nat)
      requires i < |s.workers| && Inv(s)
      ensures SignalsJustified(Move(s, i))
    {
      MoveFailures(s, i);
    }

    lemma {:induction false} StartInv(cpus: nat)
      ensures Inv(Start(cpus))
    {
    }

    // ----- runs

    ghost predicate Schedule(cpus: nat, schedule: seq<nat>) {
      forall k :: 0 <= k < |schedule| ==> schedule[k] < cpus
    }

    /** The state after the workers have moved in the given order. */
    function Run(cpus: nat, schedule: seq<nat>): (s: State)
      requires Schedule(cpus, schedule)
      ensures |s.workers| == cpus
      decreases |schedule|
    {
      if schedule == [] then Start(cpus)
      else Move(Run(cpus, schedule[..|schedule| - 1]), schedule[|schedule| - 1])
    }

    lemma {:induction false} RunInv(cpus: nat, schedule: seq<nat>)
      requires Schedule(cpus, schedule)
      ensures Inv(Run(cpus, schedule))
      decreases |schedule|
    {
      if schedule == [] {
        StartInv(cpus);
      } else {
        var before := Run(cpus, schedule[..|schedule| - 1]);
        RunInv(cpus, schedule[..|schedule| - 1]);
        MoveAccounts(before, schedule[|schedule| - 1]);
        MoveSignals(before, schedule[|schedule| - 1]);
      }
    }

    /** At every moment of every interleaving: the items handed out are exactly the front of the queue,
        no item is handed out or run twice, and no worker has finished while the event is unset. */
    lemma {:induction false} RunSafe(cpus: nat, schedule: seq<nat>)
      requires Schedule(cpus, schedule)
      ensures var s := Run(cpus, schedule);
              && s.next <= |items| && (forall j: nat :: j < s.next <==> j in s.ran || s.Some(Running(j)))
              && Distinct(s.ran)
              && (forall i :: 0 <= i < cpus && s.workers[i].Running? ==> s.workers[i].item !in s.ran)
              && (forall i, k :: 0 <= i < k < cpus && s.workers[i].Running? && s.workers[k].Running? ==>
                    s.workers[i].item != s.workers[k].item)
              && (forall i :: 0 <= i < cpus && s.workers[i].Finished? ==> s.event)
    {
      RunInv(cpus, schedule);
    }

    /** Once all workers are done the result is True exactly when every item ran and passed, which is
        to say exactly when every item passes, whatever the schedule and the number of workers. */
    lemma {:induction false} RunResult(cpus: nat, schedule: seq<nat>)
      requires cpus > 0 && Schedule(cpus, schedule) && Run(cpus, schedule).AllFinished()
      ensures var s := Run(cpus, schedule);
              && (s.result <==> forall j :: 0 <= j < |items| ==> j in s.ran && Passes(j))
              && (s.result <==> forall j :: 0 <= j < |items| ==> Passes(j))
    {
      RunInv(cpus, schedule);
      var s := Run(cpus, schedule);
      assert s.workers[0].Finished?;
      if s.result {
        forall j | 0 <= j < |items| ensures j in s.ran && Passes(j) {
          assert j < s.next;
          assert j !in s.ran ==> s.Some(Running(j));
          assert !SomeFailed(s);
        }
      } else {
        var j :| j in s.ran && !Passes(j);
        assert 0 <= j < |items|;
      }
    }

    // ----- stopping early

    /** How many workers are about to take an item. */
    function AboutToTake(pcs: seq<Pc>): nat {
      if pcs == [] then 0 else (if pcs[0].AtGet? then 1 else 0) + AboutToTake(pcs[1..])
    }

    lemma {:induction false} TakeUpdate(pcs: seq<Pc>, i: nat, pc: Pc)
      requires i < |pcs|
      ensures AboutToTake(pcs[i := pc])
           == AboutToTake(pcs) - (if pcs[i].AtGet? then 1 else 0) + (if pc.AtGet? then 1 else 0)
    {
      if i == 0 {
        assert pcs[i := pc][1..] == pcs[1..];
      } else {
        assert pcs[i := pc][1..] == pcs[1..][i - 1 := pc];
        TakeUpdate(pcs[1..], i - 1, pc);
      }
    }

    /** Once the event is set, a worker that is not about to take an item takes none any more: it is
        not about to, and what it runs it was running then. One that was about to test the event is
        still there or has finished. */
    ghost predicate Stops(was: Pc, now: Pc) {
      && (!was.AtGet? ==> !now.AtGet? && (now.Running? ==> now == was))
      && (was.AtCheck? ==> now.AtCheck? || now.Finished?)
    }

    ghost predicate AllStop(s: State, t: State) {
      |t.workers| == |s.workers| && forall i :: 0 <= i < |s.workers| ==> Stops(s.workers[i], t.workers[i])
    }

    lemma {:induction false} MoveStops(was: Pc, t: State, i: nat)
      requires t.event && i < |t.workers| && Stops(was, t.workers[i])
      ensures Stops(was, Move(t, i).workers[i])
    {
    }

    lemma {:induction false} MoveOthers(t: State, i: nat)
      requires i < |t.workers|
      ensures |Move(t, i).workers| == |t.workers| && (t.event ==> Move(t, i).event)
      ensures forall k :: 0 <= k < |t.workers| && k != i ==> Move(t, i).workers[k] == t.workers[k]
    {
    }

    lemma {:induction false} MoveAllStop(s: State, t: State, i: nat)
      requires t.event && AllStop(s, t) && i < |t.workers|
      ensures AllStop(s, Move(t, i))
    {
      MoveOthers(t, i);
      MoveStops(s.workers[i], t, i);
    }

    /** An item taken uses up a worker that was about to take one. */
    lemma {:induction false} MoveTakes(t: State, i: nat)
      requires t.event && i < |t.workers|
      ensures Move(t, i).next + AboutToTake(Move(t, i).workers) <= t.next + AboutToTake(t.workers)
    {
      TakeUpdate(t.workers, i, Move(t, i).workers[i]);
    }

    lemma {:induction false} RunSnoc(cpus: nat, before: seq<nat>, i: nat)
      requires Schedule(cpus, before) && i < cpus
      ensures Schedule(cpus, before + [i]) && Run(cpus, before + [i]) == Move(Run(cpus, before), i)
    {
      var all := before + [i];
      assert all[..|all| - 1] == before;
    }

    /** Later, the event is still set, no more items have been handed out than there were workers about
        to take one, and every other worker stops. */
    ghost predicate Stopping(s: State, t: State) {
      t.event && AllStop(s, t) && t.next + AboutToTake(t.workers) <= s.next + AboutToTake(s.workers)
    }

    lemma {:induction false} MoveStopping(s: State, t: State, i: nat)
      requires Stopping(s, t) && i < |t.workers|
      ensures Stopping(s, Move(t, i))
    {
      MoveAllStop(s, t, i);
      MoveTakes(t, i);
      MoveOthers(t, i);
    }

    /** At every moment of a run, once an item has failed and the result is cleared, the event is set or
        the worker that cleared it is about to set it. */
    lemma {:induction false} FailureLeadsToStop(cpus: nat, schedule: seq<nat>)
      requires Schedule(cpus, schedule)
      ensures FailureStops(Run(cpus, schedule))
      decreases |schedule|
    {
      if schedule != [] {
        FailureLeadsToStop(cpus, schedule[..|schedule| - 1]);
        MoveFailureStops(Run(cpus, schedule[..|schedule| - 1]), schedule[|schedule| - 1]);
      }
    }

    /** However a run goes on from a moment at which the event is set, the pool is stopping. */
    lemma {:induction false} RunStops(cpus: nat, before: seq<nat>, after: seq<nat>)
      requires Schedule(cpus, before) && Schedule(cpus, after) && Run(cpus, before).event
      ensures Schedule(cpus, before + after) && Stopping(Run(cpus, before), Run(cpus, before + after))
      decreases |after|
    {
      if after == [] {
        assert before + after == before;
      } else {
        var init, i := after[..|after| - 1], after[|after| - 1];
        RunStops(cpus, before, init);
        RunSnoc(cpus, before + init, i);
        assert before + after == (before + init) + [i];
        MoveStopping(Run(cpus, before), Run(cpus, before + init), i);
      }
    }

    // ----- termination

    function Weight(pc: Pc): nat {
      match pc
      case AtCheck => 3
      case AtGet => 2
      case Running(_) => 4
      case AtEmpty => 1
      case AtFail => 2
      case AtStop => 1
      case Finished => 0
    }

    function Weights(pcs: seq<Pc>): nat {
      if pcs == [] then 0 else Weight(pcs[0]) + Weights(pcs[1..])
    }

    /** The steps still possible are bounded by what is queued and where the workers are. */
    function Potential(s: State): int {
      3 * (|items| - s.next) + Weights(s.workers)
    }

    lemma {:induction false} WeightsUpdate(pcs: seq<Pc>, i: nat, pc: Pc)
      requires i < |pcs|
      ensures Weights(pcs[i := pc]) == Weights(pcs) - Weight(pcs[i]) + Weight(pc)
    {
      if i == 0 {
        assert pcs[i := pc][1..] == pcs[1..];
      } else {
        assert pcs[i := pc][1..] == pcs[1..][i - 1 := pc];
        WeightsUpdate(pcs[1..], i - 1, pc);
      }
    }

    lemma {:induction false} MoveDecreases(s: State, i: nat)
      requires i < |s.workers| && !s.workers[i].Finished?
      ensures Potential(Move(s, i)) < Potential(s)
    {
      WeightsUpdate(s.workers, i, Move(s, i).workers[i]);
    }

    lemma {:induction false} WeightsStart(cpus: nat)
      ensures Weights(Start(cpus).workers) == 3 * cpus
    {
      if cpus > 0 {
        WeightsStart(cpus - 1);
        assert Start(cpus).workers[1..] == Start(cpus - 1).workers;
      }
    }

    /** No step of the schedule was spent on a worker that had finished. */
    ghost predicate Busy(cpus: nat, schedule: seq<nat>)
      requires Schedule(cpus, schedule)
    {
      forall k :: 0 <= k < |schedule| ==> !Run(cpus, schedule[..k]).workers[schedule[k]].Finished?
    }

    lemma {:induction false} BusyPrefix(cpus: nat, schedule: seq<nat>, n: nat)
      requires Schedule(cpus, schedule) && Busy(cpus, schedule) && n <= |schedule|
      ensures Schedule(cpus, schedule[..n]) && Busy(cpus, schedule[..n])
    {
      var before := schedule[..n];
      forall k | 0 <= k < n ensures !Run(cpus, before[..k]).workers[before[k]].Finished? {
        assert before[..k] == schedule[..k];
      }
    }

    lemma {:induction false} PotentialFalls(cpus: nat, schedule: seq<nat>)
      requires Schedule(cpus, schedule) && Busy(cpus, schedule)
      ensures |schedule| + Potential(Run(cpus, schedule)) <= 3 * (|items| + cpus)
      decreases |schedule|
    {
      if schedule == [] {
        WeightsStart(cpus);
      } else {
        var n := |schedule| - 1;
        BusyPrefix(cpus, schedule, n);
        PotentialFalls(cpus, schedule[..n]);
        MoveDecreases(Run(cpus, schedule[..n]), schedule[n]);
      }
    }

    /** Every interleaving ends: at most three steps per item and three per worker. */
    lemma {:induction false} RunEnds(cpus: nat, schedule: seq<nat>)
      requires Schedule(cpus, schedule) && Busy(cpus, schedule)
      ensures |schedule| <= 3 * (|items| + cpus)
    {
      PotentialFalls(cpus, schedule);
      RunInv(cpus, schedule);
    }
  }
}
