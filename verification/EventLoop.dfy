/**
 * Timers of the event loop in src/event_loop.c: adding, lazy cancellation, firing with re-entrant
 * callbacks. The loop over the heap refines the runs of `TimerRuns`.
 */
module EventLoop {
  import opened TimerHeap
  import opened TimerHistory
  import opened CallbackScripts
  import opened TimerRuns

  class Loop {
    var timers: array<Timer>
    var timerCount: nat
    var nextTimerId: nat
    ghost var history: History

    ghost predicate Valid()
      reads this, timers
    {
      0 < timers.Length && timerCount <= timers.Length && IsHeap(timers[..], timerCount)
    }

    ghost function Pending(): multiset<Timer>
      requires timerCount <= timers.Length
      reads this, timers
    {
      multiset(timers[..timerCount])
    }

    ghost predicate Accounted()
      reads this, timers
    {
      Valid() && history.lastId == nextTimerId && Kept(Pending(), history)
    }

    constructor ()
      ensures Accounted() && fresh(timers)
      ensures timerCount == 0 && history == Nothing
    {
      timers := new Timer[16](_ => Timer(0, 0, false));
      timerCount, nextTimerId := 0, 0;
      history := Nothing;
      new;
      KeptIsLedger(Pending(), history);
    }

    /** Doubles the capacity of a full heap. */
    method Reserve()
      requires Valid()
      modifies this`timers
      ensures Valid() && timerCount < timers.Length && Pending() == old(Pending())
      ensures timers[..timerCount] == old(timers[..timerCount])
      ensures timers == old(timers) || fresh(timers)
    {
      if timerCount >= timers.Length {
        var grown := new Timer[2 * timers.Length](_ => Timer(0, 0, false));
        forall k | 0 <= k < timerCount {
          grown[k] := timers[k];
        }
        assert grown[..timerCount] == timers[..timerCount];
        SameHeap(timers[..], grown[..], timerCount);
        assert multiset(grown[..timerCount]) == Pending();
        timers := grown;
      }
    }

    /** `http_loop_add_timer`, with the clock reading as an input. */
    method AddTimer(now: int, timeout: int) returns (id: nat)
      requires Valid()
      modifies this, timers
      ensures Valid() && (timers == old(timers) || fresh(timers))
      ensures id == nextTimerId == old(nextTimerId) + 1
      ensures timerCount == old(timerCount) + 1
      ensures Pending() == old(Pending()) + multiset{Timer(now + timeout, id, true)}
      ensures history == Added(old(history), now + timeout)
      // the root stays the root unless the new timer expires before it
      ensures old(timerCount) > 0 ==>
        (timers[0] == if now + timeout < old(timers[0]).expiration then Timer(now + timeout, id, true)
                      else old(timers[0]))
    {
      Reserve();
      nextTimerId := nextTimerId + 1;
      id := nextTimerId;
      Place(Timer(now + timeout, id, true));
      history := Added(history, now + timeout);
    }

    /** Puts a timer behind the heap and lets it rise. */
    method Place(t: Timer)
      requires Valid() && timerCount < timers.Length
      modifies this`timerCount, timers
      ensures Valid() && timerCount == old(timerCount) + 1
      ensures Pending() == old(Pending()) + multiset{t}
      ensures old(timerCount) > 0 ==>
        timers[0] == if t.expiration < old(timers[0]).expiration then t else old(timers[0])
    {
      ghost var before := timers[..];
      timers[timerCount] := t;
      SlotAdded(before, timers[..], timerCount, t);
      HeapUp(timers, timerCount);
      timerCount := timerCount + 1;
    }

    /** `http_loop_cancel_timer`: the timer stays in the heap, inactive. */
    method CancelTimer(id: nat) returns (found: bool)
      requires Valid()
      modifies this`history, timers
      ensures Valid()
      ensures found <==> exists t :: t in old(Pending()) && t.id == id && t.active
      ensures !found ==> timers[..] == old(timers[..]) && history == old(history)
      ensures found ==> history == Cancelled(old(history), id)
      ensures found ==> exists t :: (
        t in old(Pending()) && t.id == id && t.active && Pending() == Settled(old(Pending()), t))
      // the search begins at the root
      ensures timerCount > 0 ==>
        timers[0] == if old(timers[0]).id == id then old(timers[0]).(active := false) else old(timers[0])
    {
      var i := 0;
      while i < timerCount
        invariant i <= timerCount
        invariant forall k :: 0 <= k < i ==> !(timers[k].id == id && timers[k].active)
      {
        if timers[i].id == id && timers[i].active {
          ghost var before, t := timers[..], timers[i];
          assert t in before[..timerCount];
          timers[i] := timers[i].(active := false);
          assert timers[..timerCount] == before[..timerCount][i := t.(active := false)];
          history := Cancelled(history, id);
          return true;
        }
        i := i + 1;
      }
      assert forall t :: t in timers[..timerCount] ==> !(t.id == id && t.active);
      return false;
    }

    /** Removal of the root as in `process_timers`: the count is decremented after the sift. */
    method RemoveRootLate()
      requires Valid() && timerCount > 0
      modifies this`timerCount, timers
      ensures Valid() && timerCount == old(timerCount) - 1
      ensures Pending() == old(Pending()) - multiset{old(timers[0])}
    {
      if timerCount > 1 {
        SinkLast();
      } else {
        assert timers[..timerCount] == [timers[0]];
      }
      timerCount := timerCount - 1;
    }

    /** Copies the last element over the root and lets it sink, the last slot still counted. */
    method SinkLast()
      requires Valid() && timerCount > 1
      modifies timers
      ensures IsHeap(timers[..], timerCount - 1)
      ensures multiset(timers[..timerCount - 1]) == old(Pending()) - multiset{old(timers[0])}
    {
      ghost var before, n := timers[..], timerCount;
      timers[0] := timers[timerCount - 1];
      RootReplaced(before, timers[..], n);
      HeapDown(timers, timerCount, 0);
      // the stale duplicate in the last slot has not moved
      assert timers[n - 1] == before[n - 1];
      LastDropped(timers[..], n, before[n - 1]);
      assert timers[..n - 1] == timers[..][..n - 1] && timers[..n] == timers[..][..n];
    }

    /** Copies the last element over the root; without the last slot only the root is out of order. */
    method ReplaceRoot()
      requires Valid() && timerCount > 0
      modifies timers
      ensures timerCount > 1 ==>
        HeapButBelow(timers[..], timerCount - 1, 0) && Bridged(timers[..], timerCount - 1, 0)
      ensures multiset(timers[..timerCount - 1]) == old(Pending()) - multiset{old(timers[0])}
    {
      ghost var before, n := timers[..], timerCount;
      timers[0] := timers[timerCount - 1];
      RootReplacedEarly(before, timers[..], n);
      assert timers[..n - 1] == timers[..][..n - 1] && before[..n] == before[..][..n];
    }

    /** Removal of the root as in `http_loop_tick` and `http_loop_run`: the count is decremented before. */
    method RemoveRootEarly()
      requires Valid() && timerCount > 0
      modifies this`timerCount, timers
      ensures Valid() && timerCount == old(timerCount) - 1
      ensures Pending() == old(Pending()) - multiset{old(timers[0])}
    {
      ReplaceRoot();
      timerCount := timerCount - 1;
      if timerCount > 0 {
        HeapDown(timers, timerCount, 0);
      }
    }

    /** An operation of a callback, as the history tells it. */
    method AddOp(clock: int, timeout: int)
      requires Accounted()
      modifies this, timers
      ensures Accounted() && (timers == old(timers) || fresh(timers))
      ensures history == Did(old(history), Add(clock, timeout))
      ensures timerCount == old(timerCount) + 1
      ensures old(timerCount) > 0 ==>
        timers[0] == RootStep(old(timers[0]), old(nextTimerId), Add(clock, timeout))
    {
      ghost var pending, h, t := Pending(), history, Timer(clock + timeout, nextTimerId + 1, true);
      AddKept(pending, h, clock + timeout);
      var _ := AddTimer(clock, timeout);
      assert Pending() == pending + multiset{t} && history == Added(h, clock + timeout);
    }

    method CancelOp(id: nat)
      requires Accounted()
      modifies this`history, timers
      ensures Accounted()
      ensures history == Did(old(history), Cancel(id))
      ensures timerCount > 0 ==> timers[0] == RootStep(old(timers[0]), nextTimerId, Cancel(id))
    {
      ghost var pending, h := Pending(), history;
      OpenIsActive(pending, h, id);
      var found := CancelTimer(id);
      if found {
        SomeCancelled(pending, Pending(), h, id);
      }
    }

    /** One operation. */
    method RunOp(op: Op)
      requires Accounted()
      modifies this, timers
      ensures Accounted() && (timers == old(timers) || fresh(timers))
      ensures history == Did(old(history), op) && nextTimerId == NextStep(old(nextTimerId), op)
      ensures old(timerCount) <= timerCount
      ensures old(timerCount) > 0 ==> timers[0] == RootStep(old(timers[0]), old(nextTimerId), op)
    {
      match op {
        case Add(clock, timeout) => AddOp(clock, timeout);
        case Cancel(id) => CancelOp(id);
      }
    }

    /** The body of a callback: the root is the one that the operations make it. */
    method RunOps(ops: seq<Op>)
      requires Accounted()
      modifies this, timers
      ensures Accounted() && (timers == old(timers) || fresh(timers))
      ensures history == DidAll(old(history), ops) && nextTimerId == NextAfter(old(nextTimerId), ops)
      ensures old(timerCount) <= timerCount && (ops == [] ==> timerCount == old(timerCount))
      ensures old(timerCount) > 0 ==> timers[0] == RootAfter(old(timers[0]), old(nextTimerId), ops)
    {
      var i: nat := 0;
      while i < |ops|
        invariant i <= |ops|
        invariant Accounted() && (timers == old(timers) || fresh(timers))
        invariant history == DidAll(old(history), ops[..i]) && nextTimerId == NextAfter(old(nextTimerId), ops[..i])
        invariant old(timerCount) <= timerCount && (i == 0 ==> timerCount == old(timerCount))
        invariant old(timerCount) > 0 ==> timers[0] == RootAfter(old(timers[0]), old(nextTimerId), ops[..i])
      {
        RootSnoc(if old(timerCount) > 0 then old(timers[0]) else Timer(0, 0, false), old(nextTimerId), ops, i);
        DidSnoc(old(history), ops[..i], ops[i]);
        assert ops[..i + 1] == ops[..i] + [ops[i]];
        RunOp(ops[i]);
        i := i + 1;
      }
      assert ops[..i] == ops;
    }

    /** Marks the root; its place in the heap does not change. */
    method MarkRoot()
      requires Valid() && timerCount > 0
      modifies timers
      ensures Valid() && timers[0] == old(timers[0]).(active := false) && old(timers[0]) in old(Pending())
      ensures Pending() == Settled(old(Pending()), old(timers[0]))
    {
      ghost var before, t := timers[..], timers[0];
      timers[0] := timers[0].(active := false);
      assert t in before[..timerCount];
      assert timers[..timerCount] == before[..timerCount][0 := t.(active := false)];
    }

    /** The root is what can fire next. */
    lemma RootChosen(now: int, ops: seq<Op>)
      requires Accounted() && timerCount > 0 && timers[0].active && timers[0].expiration <= now
      ensures timers[0] in Pending() && Fires(history, Turn(timers[0], nextTimerId, ops), now)
    {
      assert timers[0] in timers[..timerCount];
      KeptIsLedger(Pending(), history);
      forall id | IsOpen(history, id)
        ensures timers[0].expiration <= history.expiry[id]
      {
        RootBound(timers[..], timerCount, Timer(history.expiry[id], id, true));
      }
    }

    /** The active root is marked, and recorded as fired. */
    method MarkFired(now: int)
      requires Accounted() && timerCount > 0 && timers[0].active && timers[0].expiration <= now
      modifies this`history, timers
      ensures Accounted() && timers[0] == old(timers[0]).(active := false)
      ensures history == FiredAt(old(history), old(timers[0]), now)
    {
      ghost var pending, h, t := Pending(), history, timers[0];
      MarkRoot();
      history := FiredAt(h, t, now);
      FireKept(pending, h, t, now);
    }

    /** Whatever is the root leaves the heap, lost if it is active. */
    method DropRoot()
      requires Accounted() && timerCount > 0
      modifies this`timerCount, this`history, timers
      ensures Accounted() && timerCount == old(timerCount) - 1
      ensures history == Dropped(old(history), old(timers[0]))
    {
      assert timers[0] in timers[..timerCount];
      DropKept(Pending(), history, timers[0]);
      history := Dropped(history, timers[0]);
      RemoveRootLate();
    }

    /**
     * One turn with an active root that is due: mark, run the callback with the node still in the
     * heap, remove whatever is the root then.
     */
    method FireRoot(now: int, ops: seq<Op>) returns (ghost turn: Turn)
      requires Accounted() && timerCount > 0 && timers[0].active && timers[0].expiration <= now
      modifies this, timers
      ensures Accounted() && (timers == old(timers) || fresh(timers))
      ensures turn == Turn(old(timers[0]), old(nextTimerId), ops) && Fires(old(history), turn, now)
      ensures history == Turned(old(history), turn, now)
      ensures ops == [] ==> timerCount < old(timerCount)
    {
      turn := Turn(timers[0], nextTimerId, ops);
      RootChosen(now, ops);
      MarkFired(now);
      RunOps(ops);
      DropRoot();
    }

    /** How far a run of `process_timers` has come. */
    ghost predicate Underway(h0: History, turns: seq<Turn>, now: int, scripts: seq<seq<Op>>)
      reads this
    {
      Follow(h0, turns, now, scripts, 0) && history == AfterTurns(h0, turns, now)
    }

    /** One turn of the loop; with an inactive root it only removes it. */
    method ExpireRoot(now: int, scripts: seq<seq<Op>>, used: nat, ghost h0: History, ghost turns: seq<Turn>)
      returns (next: nat, ghost turns': seq<Turn>)
      requires Accounted() && timerCount > 0 && timers[0].expiration <= now
      requires Underway(h0, turns, now, scripts) && used == |turns|
      modifies this, timers
      ensures Accounted() && (timers == old(timers) || fresh(timers))
      ensures Underway(h0, turns', now, scripts) && next == |turns'|
      ensures turns' == turns + if old(timers[0]).active
                                then [Turn(old(timers[0]), old(nextTimerId), Script(scripts, used))] else []
      ensures next == used || used >= |scripts| ==> timerCount < old(timerCount)
    {
      next := used;
      if timers[0].active {
        ghost var turn := FireRoot(now, Script(scripts, used));
        FollowSnoc(h0, turns, turn, now, scripts, 0);
        turns' := turns + [turn];
        next := next + 1;
      } else {
        turns' := turns;
        DropRoot();
      }
    }

    /**
     * `process_timers`, one clock reading and the scripts of the callbacks it invokes: the turns are
     * those of a run without a heap. Only a run that ends has a list of scripts, and every run that
     * ends has one.
     */
    method ProcessTimers(now: int, scripts: seq<seq<Op>>) returns (ghost turns: seq<Turn>)
      requires Accounted()
      modifies this, timers
      ensures Accounted() && (timers == old(timers) || fresh(timers))
      ensures Processed(old(history), turns, now, scripts) && history == AfterTurns(old(history), turns, now)
    {
      var used: nat := 0;
      turns := [];
      while timerCount > 0 && timers[0].expiration <= now
        invariant Accounted() && (timers == old(timers) || fresh(timers))
        invariant Underway(old(history), turns, now, scripts) && used == |turns|
        decreases if used < |scripts| then |scripts| - used else 0, timerCount
      {
        used, turns := ExpireRoot(now, scripts, used, old(history), turns);
      }
      NothingDue(now);
    }

    lemma NothingDue(now: int)
      requires Accounted() && (timerCount > 0 ==> now < timers[0].expiration)
      ensures NoneDue(history, now)
    {
      KeptIsLedger(Pending(), history);
      forall id | IsOpen(history, id)
        ensures now < history.expiry[id]
      {
        RootBound(timers[..], timerCount, Timer(history.expiry[id], id, true));
      }
    }

    /** The lazy removal in `http_loop_tick` and `http_loop_run`: cancelled timers leave when they reach the root. */
    method Prune()
      requires Valid()
      modifies this`timerCount, timers
      ensures Valid()
      ensures timerCount > 0 ==> timers[0].active
      ensures Pending() <= old(Pending())
      ensures forall t :: t in old(Pending()) && t.active ==> t in Pending()
    {
      while timerCount > 0 && !timers[0].active
        invariant Valid() && Pending() <= old(Pending())
        invariant forall t :: t in old(Pending()) && t.active ==> t in Pending()
        decreases timerCount
      {
        RemoveRootEarly();
      }
    }

    /** How long to wait: to the earliest uncancelled timer, not at all if it is due, -1 without timers. */
    method NextTimeout(now: int) returns (timeout: int)
      requires Valid()
      modifies this`timerCount, timers
      ensures Valid() && Pending() <= old(Pending())
      ensures forall t :: t in old(Pending()) && t.active ==> t in Pending()
      ensures timeout == -1 <==> !exists t :: t in old(Pending()) && t.active
      ensures timeout != -1 ==>
        && timeout >= 0
        && (forall t :: t in old(Pending()) && t.active ==> timeout == 0 || now + timeout <= t.expiration)
        && exists t :: t in old(Pending()) && t.active &&
                       (now + timeout == t.expiration || (timeout == 0 && t.expiration <= now))
    {
      timeout := -1;
      Prune();
      if timerCount > 0 {
        forall t | t in Pending()
          ensures timers[0].expiration <= t.expiration
        {
          RootBound(timers[..], timerCount, t);
        }
        assert timers[0] in timers[..timerCount];
        timeout := timers[0].expiration - now;
        if timeout < 0 {
          timeout := 0;
        }
      }
    }

    /** The waiting time, as the history tells it; only settled timers leave. */
    method Wait(now: int) returns (timeout: int)
      requires Accounted()
      modifies this`timerCount, timers
      ensures Accounted() && WaitsFor(history, now, timeout)
    {
      ghost var pending := Pending();
      KeptIsLedger(pending, history);
      timeout := NextTimeout(now);
      PruneKept(pending, Pending(), history);
      ActiveIsOpen(pending, history);
      WaitFollows(pending, history, now, timeout);
    }

    /** One round of `http_loop_run`: due timers, lazy removal and waiting time, fd callbacks. */
    method RunRound(r: Round) returns (wait: int, ghost passed: Passed)
      requires Accounted()
      modifies this, timers
      ensures Accounted() && (timers == old(timers) || fresh(timers))
      ensures passed.wait == wait && Passes(old(history), r, passed)
      ensures history == AfterRound(old(history), r, passed)
    {
      ghost var turns := ProcessTimers(r.now, r.scripts);
      wait := Wait(r.again);
      passed := Passed(turns, wait);
      RunOps(r.fdOps);
    }

    /** The rounds so far are a run, and the history is the one behind it. */
    ghost predicate Ran(h0: History, rounds: seq<Round>, run: seq<Passed>)
      reads this
    {
      IsRun(h0, rounds, run) && history == AfterRounds(h0, rounds, run)
    }

    method RunNext(rounds: seq<Round>, i: nat, ghost h0: History, ghost run: seq<Passed>)
      returns (wait: int, ghost run': seq<Passed>)
      requires Accounted() && i < |rounds| && Ran(h0, rounds[..i], run)
      modifies this, timers
      ensures Accounted() && (timers == old(timers) || fresh(timers))
      ensures Ran(h0, rounds[..i + 1], run')
      ensures exists turns :: run' == run + [Passed(turns, wait)]
    {
      ghost var passed;
      wait, passed := RunRound(rounds[i]);
      IsRunSnoc(h0, rounds[..i], run, rounds[i], passed);
      assert rounds[..i + 1] == rounds[..i] + [rounds[i]];
      run' := run + [passed];
      assert passed == Passed(passed.turns, wait);
    }

    /** The rounds of `http_loop_run` are a run without a heap. */
    method Run(rounds: seq<Round>) returns (waits: seq<int>, ghost run: seq<Passed>)
      requires Accounted()
      modifies this, timers
      ensures Accounted() && (timers == old(timers) || fresh(timers))
      ensures Ran(old(history), rounds, run)
      ensures |waits| == |run| && forall i :: 0 <= i < |waits| ==> waits[i] == run[i].wait
    {
      waits, run := [], [];
      assert rounds[..0] == [];
      while |waits| < |rounds|
        invariant |run| == |waits| <= |rounds|
        invariant Accounted() && (timers == old(timers) || fresh(timers))
        invariant Ran(old(history), rounds[..|run|], run)
        invariant forall i :: 0 <= i < |waits| ==> waits[i] == run[i].wait
        decreases |rounds| - |waits|
      {
        ghost var so := run;
        var wait;
        wait, run := RunNext(rounds, |waits|, old(history), so);
        waits := waits + [wait];
        assert run[..|so|] == so && run[|so|].wait == wait;
      }
      assert rounds[..|run|] == rounds;
    }
  }

  lemma SomeCancelled(pending: multiset<Timer>, after: multiset<Timer>, h: History, id: nat)
    requires Kept(pending, h)
    requires exists t :: t in pending && t.id == id && t.active && after == Settled(pending, t)
    ensures Kept(after, Cancelled(h, id))
  {
    var t :| t in pending && t.id == id && t.active && after == Settled(pending, t);
    CancelKept(pending, h, t);
  }

  lemma ActiveIsOpen(pending: multiset<Timer>, h: History)
    requires Ledger(pending, h)
    ensures forall t :: t in pending && t.active ==> IsOpen(h, t.id) && h.expiry[t.id] == t.expiration
    ensures forall id :: IsOpen(h, id) ==> Timer(h.expiry[id], id, true) in pending
  {
  }

  lemma WaitFollows(pending: multiset<Timer>, h: History, now: int, timeout: int)
    requires forall t :: t in pending && t.active ==> IsOpen(h, t.id) && h.expiry[t.id] == t.expiration
    requires forall id :: IsOpen(h, id) ==> Timer(h.expiry[id], id, true) in pending
    requires timeout == -1 <==> !exists t :: t in pending && t.active
    requires timeout != -1 ==>
      && timeout >= 0
      && (forall t :: t in pending && t.active ==> timeout == 0 || now + timeout <= t.expiration)
      && exists t :: t in pending && t.active &&
                     (now + timeout == t.expiration || (timeout == 0 && t.expiration <= now))
    ensures WaitsFor(h, now, timeout)
  {
  }

  lemma RootBound(a: seq<Timer>, n: nat, t: Timer)
    requires n <= |a| && IsHeap(a, n) && t in multiset(a[..n])
    ensures n > 0 && a[0].expiration <= t.expiration
  {
    assert t in a[..n];
    var k :| 0 <= k < n && a[..n][k] == t;
    RootIsMinimal(a, n, k);
  }

  lemma SameHeap(a: seq<Timer>, b: seq<Timer>, n: nat)
    requires n <= |a| && n <= |b| && a[..n] == b[..n] && IsHeap(a, n)
    ensures IsHeap(b, n)
  {
    forall j | 0 < j < n
      ensures b[Parent(j)].expiration <= b[j].expiration
    {
      assert a[..n][j] == a[j] && b[..n][j] == b[j];
      assert a[..n][Parent(j)] == a[Parent(j)] && b[..n][Parent(j)] == b[Parent(j)];
    }
  }

  lemma SlotAdded(before: seq<Timer>, after: seq<Timer>, n: nat, t: Timer)
    requires n < |before| && after == before[n := t] && IsHeap(before, n)
    ensures IsHeap(after, n)
    ensures multiset(after[..n + 1]) == multiset(before[..n]) + multiset{t}
  {
    assert after[..n + 1] == before[..n] + [t];
  }

  /** The last element copied over the root: a heap but for the root, one stale duplicate. */
  lemma RootReplaced(before: seq<Timer>, after: seq<Timer>, n: nat)
    requires 0 < n <= |before| && IsHeap(before, n) && after == before[0 := before[n - 1]]
    ensures HeapButBelow(after, n, 0) && Bridged(after, n, 0)
    ensures n > 1 ==> HeapButBelow(after, n - 1, 0) && Bridged(after, n - 1, 0)
    ensures multiset(after[..n]) == multiset(before[..n]) - multiset{before[0]} + multiset{before[n - 1]}
  {
    assert before[..n] == [before[0]] + before[1..n];
    assert after[..n] == [before[n - 1]] + before[1..n];
  }

  lemma LastDropped(a: seq<Timer>, n: nat, t: Timer)
    requires 0 < n <= |a| && a[n - 1] == t
    ensures multiset(a[..n - 1]) == multiset(a[..n]) - multiset{t}
    ensures IsHeap(a, n) ==> IsHeap(a, n - 1)
  {
    assert a[..n] == a[..n - 1] + [t];
  }

  lemma RootReplacedEarly(before: seq<Timer>, after: seq<Timer>, n: nat)
    requires 0 < n <= |before| && IsHeap(before, n) && after == before[0 := before[n - 1]]
    ensures n > 1 ==> HeapButBelow(after, n - 1, 0) && Bridged(after, n - 1, 0)
    ensures multiset(after[..n - 1]) == multiset(before[..n]) - multiset{before[0]}
  {
    RootReplaced(before, after, n);
    LastDropped(after, n, before[n - 1]);
  }

  lemma EmptyLedger()
    ensures Ledger(multiset{}, Nothing) && Numbered(Nothing) && Waited(Nothing) && Calm(Nothing, 0)
  {
  }

  /** What holds of every run from a fresh loop. */
  lemma RunVerdict(pending: multiset<Timer>, h: History, rounds: seq<Round>, run: seq<Passed>)
    requires IsRun(Nothing, rounds, run) && h == AfterRounds(Nothing, rounds, run) && Ledger(pending, h)
    ensures NoneLost(pending, h) <==> forall p <- run :: !PassLoses(p)
    ensures InOrder(h) <==> forall j: nat, id: nat :: Late(h, j, id) ==> Unfired(h, id)
    ensures OrderlyRounds(0, rounds) ==> NoneLost(pending, h) && InOrder(h)
  {
    NoneLostExactly(pending, h);
    EmptyLedger();
    RunLoses(Nothing, rounds, run);
    RunWaited(Nothing, rounds, run);
    OrderExactly(pending, h);
    if OrderlyRounds(0, rounds) {
      RunCalm(Nothing, 0, rounds, run);
    }
  }

  /**
   * Whole runs from a fresh loop, with any clock readings, timeouts and callbacks: they are runs
   * without a heap, and every timer has one of four fates. Nothing is lost if and only if no turn
   * meets the condition for it, and the firings are in order if and only if every timer that is added
   * late is not fired. Both hold for orderly rounds.
   */
  method RunFresh(rounds: seq<Round>) returns (loop: Loop, waits: seq<int>, ghost run: seq<Passed>)
    ensures loop.Valid() && Ledger(loop.Pending(), loop.history) && loop.history.lastId == loop.nextTimerId
    ensures IsRun(Nothing, rounds, run) && loop.history == AfterRounds(Nothing, rounds, run)
    ensures |waits| == |run| && forall i :: 0 <= i < |waits| ==> waits[i] == run[i].wait
    ensures NoneLost(loop.Pending(), loop.history) <==> forall p <- run :: !PassLoses(p)
    ensures InOrder(loop.history) <==>
            forall j: nat, id: nat :: Late(loop.history, j, id) ==> Unfired(loop.history, id)
    ensures OrderlyRounds(0, rounds) ==> NoneLost(loop.Pending(), loop.history) && InOrder(loop.history)
  {
    loop := new Loop();
    waits, run := loop.Run(rounds);
    KeptIsLedger(loop.Pending(), loop.history);
    RunVerdict(loop.Pending(), loop.history, rounds, run);
  }

  /** A timer is lost: the callback of a timer that is due adds one that expired before. */
  method LostTimer(now: int) returns (loop: Loop)
    ensures loop.Valid() && !NoneLost(loop.Pending(), loop.history)
  {
    ghost var run;
    var waits;
    loop, waits, run := RunFresh(OneTimer(now, [Add(now, -1)], []));
    NegativeRunLoses(now, run);
    NoneLostExactly(loop.Pending(), loop.history);
  }

  /** Firings out of order: a timer that expired before another one is added after that one has fired. */
  method LateTimer(now: int) returns (loop: Loop)
    ensures loop.Valid() && !InOrder(loop.history)
  {
    ghost var run;
    var waits;
    loop, waits, run := RunFresh(LateRounds(now));
    LateRunFires(now, run);
  }
}
