/**
 * What the event loop of src/event_loop.c does, told without a heap: turns that fire an earliest
 * open timer and run its callback, rounds of turns, whole runs of rounds. Clock readings and
 * timeouts are of any kind.
 */
module TimerRuns {
  import opened Bytes
  import opened TimerHeap
  import opened TimerHistory
  import opened CallbackScripts

  // ---------- callbacks ----------

  /** An addition gives out the next id; a cancellation settles an open timer or changes nothing. */
  ghost function Did(h: History, op: Op): History {
    match op
    case Add(_, _) => Added(h, Expires(op))
    case Cancel(id) => if IsOpen(h, id) then Cancelled(h, id) else h
  }

  ghost function DidAll(h: History, ops: seq<Op>): History
    decreases |ops|
  {
    if ops == [] then h else DidAll(Did(h, ops[0]), ops[1..])
  }

  lemma {:induction false} DidSnoc(h: History, ops: seq<Op>, op: Op)
    ensures DidAll(h, ops + [op]) == Did(DidAll(h, ops), op)
    decreases |ops|
  {
    if ops == [] {
      assert [] + [op] == [op] && [op][1..] == [];
    } else {
      assert (ops + [op])[0] == ops[0] && (ops + [op])[1..] == ops[1..] + [op];
      DidSnoc(Did(h, ops[0]), ops[1..], op);
    }
  }

  /** How many timers the operations add. */
  function Additions(ops: seq<Op>): nat {
    if ops == [] then 0 else (if ops[0].Add? then 1 else 0) + Additions(ops[1..])
  }

  /** Callbacks fire nothing, lose nothing, and give out one id for each addition. */
  lemma {:induction false} DidKeeps(h: History, ops: seq<Op>)
    ensures DidAll(h, ops).fired == h.fired && DidAll(h, ops).lost == h.lost
    ensures DidAll(h, ops).lastId == h.lastId + Additions(ops) == NextAfter(h.lastId, ops)
    decreases |ops|
  {
    if ops != [] {
      DidKeeps(Did(h, ops[0]), ops[1..]);
    }
  }

  // ---------- turns ----------

  /** A turn that fires: the root as it was, the last id given out before, what the callback does. */
  datatype Turn = Turn(root: Timer, lastId: nat, ops: seq<Op>)

  /** The timer that the turn removes from the heap. */
  function Removed(t: Turn): Timer {
    RootAfter(t.root.(active := false), t.lastId, t.ops)
  }

  predicate TurnLoses(t: Turn) {
    Loses(t.ops, t.root.expiration, t.lastId)
  }

  /** The turn fires an open timer that is due, and none that is open expires before it. */
  ghost predicate Fires(h: History, t: Turn, now: int) {
    && t.root.active && t.lastId == h.lastId && IsOpen(h, t.root.id)
    && h.expiry[t.root.id] == t.root.expiration <= now
    && forall id :: IsOpen(h, id) ==> t.root.expiration <= h.expiry[id]
  }

  /** The timer fires, its callback runs, and what is the root by then leaves the heap. */
  ghost function Turned(h: History, t: Turn, now: int): History {
    Dropped(DidAll(FiredAt(h, t.root, now), t.ops), Removed(t))
  }

  /** The turn loses a timer if and only if it removes an active one. */
  lemma TurnLosesExactly(t: Turn)
    ensures TurnLoses(t) <==> Removed(t).active
  {
    LosesExactly(t.root.(active := false), t.lastId, t.ops);
  }

  ghost function AfterTurns(h: History, turns: seq<Turn>, now: int): History
    decreases |turns|
  {
    if turns == [] then h else AfterTurns(Turned(h, turns[0], now), turns[1..], now)
  }

  /** What the next callback does; callbacks beyond the scripts leave the timers alone. */
  function Script(scripts: seq<seq<Op>>, used: nat): seq<Op> {
    if used < |scripts| then scripts[used] else []
  }

  /** The turns follow each other, the k-th one with the callback of script `used + k`. */
  ghost predicate Follow(h: History, turns: seq<Turn>, now: int, scripts: seq<seq<Op>>, used: nat)
    decreases |turns|
  {
    turns == [] ||
    (&& Fires(h, turns[0], now) && turns[0].ops == Script(scripts, used)
     && Follow(Turned(h, turns[0], now), turns[1..], now, scripts, used + 1))
  }

  lemma {:induction false} FollowSnoc(h: History, turns: seq<Turn>, t: Turn, now: int, scripts: seq<seq<Op>>, used: nat)
    requires Follow(h, turns, now, scripts, used)
    requires Fires(AfterTurns(h, turns, now), t, now) && t.ops == Script(scripts, used + |turns|)
    ensures Follow(h, turns + [t], now, scripts, used)
    ensures AfterTurns(h, turns + [t], now) == Turned(AfterTurns(h, turns, now), t, now)
    decreases |turns|
  {
    if turns == [] {
      assert [] + [t] == [t] && [t][1..] == [];
    } else {
      assert (turns + [t])[0] == turns[0] && (turns + [t])[1..] == turns[1..] + [t];
      FollowSnoc(Turned(h, turns[0], now), turns[1..], t, now, scripts, used + 1);
    }
  }

  ghost predicate NoneDue(h: History, now: int) {
    forall id :: IsOpen(h, id) ==> now < h.expiry[id]
  }

  /** A whole run of `process_timers`: turns until nothing that is open is due. */
  ghost predicate Processed(h: History, turns: seq<Turn>, now: int, scripts: seq<seq<Op>>) {
    Follow(h, turns, now, scripts, 0) && NoneDue(AfterTurns(h, turns, now), now)
  }

  // ---------- rounds ----------

  /** One round of `http_loop_run`: two clock readings, the scripts of timer callbacks, what fd callbacks do. */
  datatype Round = Round(now: int, scripts: seq<seq<Op>>, again: int, fdOps: seq<Op>)

  /** What a round did: its turns, and how long it was ready to wait. */
  datatype Passed = Passed(turns: seq<Turn>, wait: int)

  ghost function AfterRound(h: History, r: Round, p: Passed): History {
    DidAll(AfterTurns(h, p.turns, r.now), r.fdOps)
  }

  /** The wait reaches to the earliest open timer: none at all if it is due, -1 without timers. */
  ghost predicate WaitsFor(h: History, again: int, wait: int) {
    && (wait == -1 <==> forall id :: !IsOpen(h, id))
    && (wait != -1 ==>
          && wait >= 0
          && (forall id :: IsOpen(h, id) ==> wait == 0 || again + wait <= h.expiry[id])
          && exists id :: IsOpen(h, id) && (again + wait == h.expiry[id] || (wait == 0 && h.expiry[id] <= again)))
  }

  ghost predicate Passes(h: History, r: Round, p: Passed) {
    Processed(h, p.turns, r.now, r.scripts) && WaitsFor(AfterTurns(h, p.turns, r.now), r.again, p.wait)
  }

  ghost function AfterRounds(h: History, rounds: seq<Round>, run: seq<Passed>): History
    requires |rounds| == |run|
    decreases |run|
  {
    if run == [] then h else AfterRounds(AfterRound(h, rounds[0], run[0]), rounds[1..], run[1..])
  }

  /** A run of the rounds. */
  ghost predicate IsRun(h: History, rounds: seq<Round>, run: seq<Passed>)
    decreases |run|
  {
    && |rounds| == |run|
    && (run == [] ||
        (Passes(h, rounds[0], run[0]) && IsRun(AfterRound(h, rounds[0], run[0]), rounds[1..], run[1..])))
  }

  lemma {:induction false} IsRunSnoc(h: History, rounds: seq<Round>, run: seq<Passed>, r: Round, p: Passed)
    requires IsRun(h, rounds, run) && Passes(AfterRounds(h, rounds, run), r, p)
    ensures IsRun(h, rounds + [r], run + [p])
    ensures AfterRounds(h, rounds + [r], run + [p]) == AfterRound(AfterRounds(h, rounds, run), r, p)
    decreases |run|
  {
    var rounds', run' := rounds + [r], run + [p];
    if run == [] {
      assert run'[1..] == [] && rounds'[1..] == [];
    } else {
      assert run'[0] == run[0] && run'[1..] == run[1..] + [p];
      assert rounds'[0] == rounds[0] && rounds'[1..] == rounds[1..] + [r];
      IsRunSnoc(AfterRound(h, rounds[0], run[0]), rounds[1..], run[1..], r, p);
    }
  }

  // ---------- what a run fires and gives out ----------

  function Firings(turns: seq<Turn>, now: int): seq<Firing> {
    seq(|turns|, k requires 0 <= k < |turns| =>
      Firing(turns[k].root.id, turns[k].root.expiration, now, turns[k].lastId))
  }

  /** The operations of the callbacks of some turns. */
  function OpsOf(turns: seq<Turn>): seq<Op> {
    if turns == [] then [] else turns[0].ops + OpsOf(turns[1..])
  }

  lemma {:induction false} AdditionsConcat(a: seq<Op>, b: seq<Op>)
    ensures Additions(a + b) == Additions(a) + Additions(b)
  {
    if a == [] {
      assert a + b == b;
    } else {
      assert (a + b)[0] == a[0] && (a + b)[1..] == a[1..] + b;
      AdditionsConcat(a[1..], b);
    }
  }

  lemma FiringsFirst(turns: seq<Turn>, now: int)
    requires turns != []
    ensures var t := turns[0];
            Firings(turns, now) == [Firing(t.root.id, t.root.expiration, now, t.lastId)] + Firings(turns[1..], now)
  {
  }

  /** The turns fire one timer each. */
  lemma {:induction false} TurnsFire(h: History, turns: seq<Turn>, now: int, scripts: seq<seq<Op>>, used: nat)
    requires Follow(h, turns, now, scripts, used)
    ensures AfterTurns(h, turns, now).fired == h.fired + Firings(turns, now)
    decreases |turns|
  {
    if turns == [] {
      assert h.fired + Firings(turns, now) == h.fired;
    } else {
      var t, more := turns[0], turns[1..];
      var first := [Firing(t.root.id, t.root.expiration, now, h.lastId)];
      TurnsFire(Turned(h, t, now), more, now, scripts, used + 1);
      DidKeeps(FiredAt(h, t.root, now), t.ops);
      FiringsFirst(turns, now);
      Regroup(h.fired, first, Firings(more, now));
    }
  }

  /** They run the callbacks of the scripts, in order. */
  lemma {:induction false} TurnsScripts(h: History, turns: seq<Turn>, now: int, scripts: seq<seq<Op>>, used: nat)
    requires Follow(h, turns, now, scripts, used)
    ensures forall k :: 0 <= k < |turns| ==>
              turns[k].root.active && turns[k].ops == if used + k < |scripts| then scripts[used + k] else []
    decreases |turns|
  {
    if turns != [] {
      TurnsScripts(Turned(h, turns[0], now), turns[1..], now, scripts, used + 1);
      assert forall k :: 0 < k < |turns| ==> turns[k] == turns[1..][k - 1];
    }
  }

  /** They give out one id for each addition. */
  lemma {:induction false} TurnsAdd(h: History, turns: seq<Turn>, now: int)
    ensures AfterTurns(h, turns, now).lastId == h.lastId + Additions(OpsOf(turns))
    decreases |turns|
  {
    if turns != [] {
      var t, more := turns[0], turns[1..];
      TurnsAdd(Turned(h, t, now), more, now);
      DidKeeps(FiredAt(h, t.root, now), t.ops);
      AdditionsConcat(t.ops, OpsOf(more));
    }
  }

  /** The firings of all rounds, in order. */
  function AllFirings(rounds: seq<Round>, run: seq<Passed>): seq<Firing>
    requires |rounds| == |run|
  {
    if run == [] then [] else Firings(run[0].turns, rounds[0].now) + AllFirings(rounds[1..], run[1..])
  }

  /** Everything that callbacks did in the rounds, in order. */
  function AllOps(rounds: seq<Round>, run: seq<Passed>): seq<Op>
    requires |rounds| == |run|
  {
    if run == [] then [] else OpsOf(run[0].turns) + rounds[0].fdOps + AllOps(rounds[1..], run[1..])
  }

  /** The firings of a run are those of its turns. */
  lemma {:induction false} RunFires(h: History, rounds: seq<Round>, run: seq<Passed>)
    requires IsRun(h, rounds, run)
    ensures AfterRounds(h, rounds, run).fired == h.fired + AllFirings(rounds, run)
    decreases |run|
  {
    if run == [] {
      assert h.fired + AllFirings(rounds, run) == h.fired;
    } else {
      var r, p := rounds[0], run[0];
      TurnsFire(h, p.turns, r.now, r.scripts, 0);
      DidKeeps(AfterTurns(h, p.turns, r.now), r.fdOps);
      RunFires(AfterRound(h, r, p), rounds[1..], run[1..]);
      Regroup(h.fired, Firings(p.turns, r.now), AllFirings(rounds[1..], run[1..]));
    }
  }

  /** As many ids are given out as timers were added. */
  lemma {:induction false} RunAdds(h: History, rounds: seq<Round>, run: seq<Passed>)
    requires |rounds| == |run|
    ensures AfterRounds(h, rounds, run).lastId == h.lastId + Additions(AllOps(rounds, run))
    decreases |run|
  {
    if run != [] {
      var r, p, more := rounds[0], run[0], AllOps(rounds[1..], run[1..]);
      TurnsAdd(h, p.turns, r.now);
      DidKeeps(AfterTurns(h, p.turns, r.now), r.fdOps);
      RunAdds(AfterRound(h, r, p), rounds[1..], run[1..]);
      RoundAdditions(OpsOf(p.turns), r.fdOps, more);
    }
  }

  lemma RoundAdditions(a: seq<Op>, b: seq<Op>, c: seq<Op>)
    ensures Additions(a + b + c) == Additions(a) + Additions(b) + Additions(c)
  {
    AdditionsConcat(a, b);
    AdditionsConcat(a + b, c);
  }

  // ---------- what a run loses ----------

  lemma {:induction false} TurnsLose(h: History, turns: seq<Turn>, now: int)
    ensures AfterTurns(h, turns, now).lost == {} <==> h.lost == {} && forall t <- turns :: !TurnLoses(t)
    decreases |turns|
  {
    if turns != [] {
      var t, more := turns[0], turns[1..];
      DidKeeps(FiredAt(h, t.root, now), t.ops);
      TurnLosesExactly(t);
      TurnsLose(Turned(h, t, now), more, now);
      assert forall u <- turns :: u == t || u in more;
      assert t in turns && forall u <- more :: u in turns;
    }
  }

  /** Some turn of the round meets the condition. */
  predicate PassLoses(p: Passed) {
    exists t <- p.turns :: TurnLoses(t)
  }

  /** A run loses no timer if and only if none of its turns does. */
  lemma {:induction false} RunLoses(h: History, rounds: seq<Round>, run: seq<Passed>)
    requires |rounds| == |run|
    ensures AfterRounds(h, rounds, run).lost == {} <==> h.lost == {} && forall p <- run :: !PassLoses(p)
    decreases |run|
  {
    if run != [] {
      var r, p, more := rounds[0], run[0], run[1..];
      TurnsLose(h, p.turns, r.now);
      DidKeeps(AfterTurns(h, p.turns, r.now), r.fdOps);
      RunLoses(AfterRound(h, r, p), rounds[1..], more);
      assert forall q <- run :: q == p || q in more;
      assert p in run && forall q <- more :: q in run;
    }
  }

  // ---------- the order of firings ----------

  /** Firings come in order of expiration. */
  ghost predicate InOrder(h: History) {
    forall j, k :: 0 <= j < k < |h.fired| ==> h.fired[j].expiration <= h.fired[k].expiration
  }

  /** Ids are given out in ascending order, and a timer fires after its own. */
  ghost predicate Numbered(h: History) {
    && (forall id <- h.expiry :: id <= h.lastId)
    && (forall j :: 0 <= j < |h.fired| ==> h.fired[j].id <= h.fired[j].lastId <= h.lastId)
    && (forall j, k :: 0 <= j < k < |h.fired| ==> h.fired[j].lastId <= h.fired[k].lastId)
  }

  /** A timer that was there when another fired, and is open or fires later, does not expire before it. */
  ghost predicate Waited(h: History) {
    && Numbered(h)
    && (forall j, id: nat :: 0 <= j < |h.fired| && IsOpen(h, id) && id <= h.fired[j].lastId ==>
          h.fired[j].expiration <= h.expiry[id])
    && (forall j, k :: 0 <= j < k < |h.fired| && h.fired[k].id <= h.fired[j].lastId ==>
          h.fired[j].expiration <= h.fired[k].expiration)
  }

  lemma {:induction false} DidWaited(h: History, ops: seq<Op>)
    requires Waited(h)
    ensures Waited(DidAll(h, ops))
    decreases |ops|
  {
    if ops != [] {
      var h' := Did(h, ops[0]);
      assert h'.fired == h.fired;
      assert forall id: nat :: HasFired(h', id) <==> HasFired(h, id);
      assert forall id :: IsOpen(h', id) ==> IsOpen(h, id) || id == h.lastId + 1;
      DidWaited(h', ops[1..]);
    }
  }

  lemma DroppedWaited(h: History, t: Timer)
    requires Waited(h)
    ensures Waited(Dropped(h, t))
  {
    var h' := Dropped(h, t);
    assert forall id: nat :: HasFired(h', id) <==> HasFired(h, id);
    assert forall id :: IsOpen(h', id) ==> IsOpen(h, id);
  }

  lemma FiredNumbered(h: History, t: Turn, now: int)
    requires Numbered(h) && Fires(h, t, now)
    ensures Numbered(FiredAt(h, t.root, now))
  {
    var h', n := FiredAt(h, t.root, now), |h.fired|;
    assert h'.fired[n] == Firing(t.root.id, t.root.expiration, now, h.lastId);
    assert forall j :: 0 <= j < n ==> h'.fired[j] == h.fired[j];
  }

  lemma FiredWaited(h: History, t: Turn, now: int)
    requires Waited(h) && Fires(h, t, now)
    ensures Waited(FiredAt(h, t.root, now))
  {
    var h', n := FiredAt(h, t.root, now), |h.fired|;
    FiredNumbered(h, t, now);
    FiredIds(h, t.root, now);
    assert h'.fired[n] == Firing(t.root.id, t.root.expiration, now, h.lastId);
    assert forall j :: 0 <= j < n ==> h'.fired[j] == h.fired[j];
  }

  lemma {:induction false} TurnsWaited(h: History, turns: seq<Turn>, now: int, scripts: seq<seq<Op>>, used: nat)
    requires Waited(h) && Follow(h, turns, now, scripts, used)
    ensures Waited(AfterTurns(h, turns, now))
    decreases |turns|
  {
    if turns != [] {
      var t := turns[0];
      FiredWaited(h, t, now);
      DidWaited(FiredAt(h, t.root, now), t.ops);
      DroppedWaited(DidAll(FiredAt(h, t.root, now), t.ops), Removed(t));
      TurnsWaited(Turned(h, t, now), turns[1..], now, scripts, used + 1);
    }
  }

  lemma {:induction false} RunWaited(h: History, rounds: seq<Round>, run: seq<Passed>)
    requires Waited(h) && IsRun(h, rounds, run)
    ensures Waited(AfterRounds(h, rounds, run))
    decreases |run|
  {
    if run != [] {
      var r, p := rounds[0], run[0];
      TurnsWaited(h, p.turns, r.now, r.scripts, 0);
      DidWaited(AfterTurns(h, p.turns, r.now), r.fdOps);
      RunWaited(AfterRound(h, r, p), rounds[1..], run[1..]);
    }
  }

  /** A timer is added after the firing `j`, and expires before the timer that fired there. */
  ghost predicate Late(h: History, j: nat, id: nat) {
    j < |h.fired| && id in h.expiry && id > h.fired[j].lastId && h.expiry[id] < h.fired[j].expiration
  }

  /** It has not fired: it is cancelled, lost, or still open. */
  ghost predicate Unfired(h: History, id: nat) {
    id in h.cancelled || id in h.lost || IsOpen(h, id)
  }

  /**
   * The firings of a run are in order if and only if every timer that is added after a firing and
   * expires before it is cancelled, lost, or still open.
   */
  lemma OrderExactly(pending: multiset<Timer>, h: History)
    requires Ledger(pending, h) && Waited(h)
    ensures InOrder(h) <==> forall j: nat, id: nat :: Late(h, j, id) ==> Unfired(h, id)
  {
    forall id: nat | id in h.expiry
      ensures Unfired(h, id) <==> !HasFired(h, id)
    {
      OneOfFour(pending, h, id);
    }
    LateFires(h);
  }

  /** Out of order are exactly the late timers that have fired. */
  lemma LateFires(h: History)
    requires FiredOnce(h) && Waited(h)
    ensures InOrder(h) <==> forall j: nat, id: nat :: Late(h, j, id) ==> !HasFired(h, id)
  {
    if !InOrder(h) {
      var j, k :| 0 <= j < k < |h.fired| && h.fired[j].expiration > h.fired[k].expiration;
      assert HasFired(h, h.fired[k].id) && Late(h, j, h.fired[k].id);
    }
  }

  // ---------- orderly runs ----------

  ghost predicate AllOrderly(clock: int, scripts: seq<seq<Op>>)
    decreases |scripts|
  {
    scripts == [] ||
    (Orderly(clock, scripts[0]) && AllOrderly(ClockAfter(clock, scripts[0]), scripts[1..]))
  }

  ghost function ClockAfterAll(clock: int, scripts: seq<seq<Op>>): int
    decreases |scripts|
  {
    if scripts == [] then clock else ClockAfterAll(ClockAfter(clock, scripts[0]), scripts[1..])
  }

  /** In no round does the clock step back, and no timeout is negative. */
  ghost predicate OrderlyRounds(clock: int, rounds: seq<Round>)
    decreases |rounds|
  {
    rounds == [] ||
    var r := rounds[0];
    && clock <= r.now && AllOrderly(r.now, r.scripts)
    && ClockAfterAll(r.now, r.scripts) <= r.again && Orderly(r.again, r.fdOps)
    && OrderlyRounds(ClockAfter(r.again, r.fdOps), rounds[1..])
  }

  lemma {:induction false} ClockForward(clock: int, ops: seq<Op>)
    requires Orderly(clock, ops)
    ensures clock <= ClockAfter(clock, ops)
    decreases |ops|
  {
    if ops != [] {
      ClockForward(if ops[0].Add? then ops[0].clock else clock, ops[1..]);
    }
  }

  lemma {:induction false} ClockForwardAll(clock: int, scripts: seq<seq<Op>>)
    requires AllOrderly(clock, scripts)
    ensures clock <= ClockAfterAll(clock, scripts)
    decreases |scripts|
  {
    if scripts != [] {
      ClockForward(clock, scripts[0]);
      ClockForwardAll(ClockAfter(clock, scripts[0]), scripts[1..]);
    }
  }

  /** Nothing is lost, and what fired came in order, before the clock and before everything that is open. */
  ghost predicate Calm(h: History, clock: int) {
    && h.lost == {} && InOrder(h)
    && (forall k :: 0 <= k < |h.fired| ==> h.fired[k].expiration <= clock)
    && (forall k, id :: 0 <= k < |h.fired| && IsOpen(h, id) ==> h.fired[k].expiration <= h.expiry[id])
  }

  lemma DidCalm(h: History, clock: int, op: Op)
    requires Calm(h, clock) && Orderly(clock, [op]) && Numbered(h)
    ensures Calm(Did(h, op), ClockAfter(clock, [op])) && Numbered(Did(h, op))
  {
    var h' := Did(h, op);
    assert [op][1..] == [];
    assert h'.fired == h.fired;
    assert forall id: nat :: HasFired(h', id) <==> HasFired(h, id);
    assert forall id :: IsOpen(h', id) ==> IsOpen(h, id) || id == h.lastId + 1;
  }

  lemma {:induction false} DidAllCalm(h: History, clock: int, ops: seq<Op>)
    requires Calm(h, clock) && Orderly(clock, ops) && Numbered(h)
    ensures Calm(DidAll(h, ops), ClockAfter(clock, ops)) && Numbered(DidAll(h, ops))
    decreases |ops|
  {
    if ops != [] {
      var c := if ops[0].Add? then ops[0].clock else clock;
      assert [ops[0]][1..] == [];
      assert Orderly(c, []) && ClockAfter(clock, [ops[0]]) == ClockAfter(c, []);
      DidCalm(h, clock, ops[0]);
      DidAllCalm(Did(h, ops[0]), c, ops[1..]);
    }
  }

  lemma FiredCalm(h: History, clock: int, t: Turn, now: int)
    requires Calm(h, clock) && Fires(h, t, now) && now <= clock && Numbered(h)
    ensures Calm(FiredAt(h, t.root, now), clock) && Numbered(FiredAt(h, t.root, now))
  {
    var h', n := FiredAt(h, t.root, now), |h.fired|;
    FiredIds(h, t.root, now);
    assert h'.fired[n] == Firing(t.root.id, t.root.expiration, now, h.lastId);
    assert forall j :: 0 <= j < n ==> h'.fired[j] == h.fired[j];
  }

  /** An orderly turn loses nothing, and fires in order. */
  lemma TurnCalm(h: History, clock: int, t: Turn, now: int)
    requires Calm(h, clock) && Fires(h, t, now) && now <= clock && Orderly(clock, t.ops) && Numbered(h)
    ensures Calm(Turned(h, t, now), ClockAfter(clock, t.ops)) && Numbered(Turned(h, t, now))
  {
    FiredCalm(h, clock, t, now);
    DidAllCalm(FiredAt(h, t.root, now), clock, t.ops);
    OrderlyLosesNothing(clock, t.ops, t.root.expiration, t.lastId);
    TurnLosesExactly(t);
  }

  lemma {:induction false} TurnsCalm(h: History, clock: int, turns: seq<Turn>, now: int,
                                     scripts: seq<seq<Op>>, used: nat) returns (later: int)
    requires Calm(h, clock) && Numbered(h) && now <= clock && Follow(h, turns, now, scripts, used)
    requires used <= |scripts| ==> AllOrderly(clock, scripts[used..])
    ensures clock <= later && (used <= |scripts| ==> later <= ClockAfterAll(clock, scripts[used..]))
    ensures used > |scripts| ==> later == clock
    ensures Calm(AfterTurns(h, turns, now), later) && Numbered(AfterTurns(h, turns, now))
    decreases |turns|
  {
    if turns == [] {
      later := clock;
      if used <= |scripts| {
        ClockForwardAll(clock, scripts[used..]);
      }
    } else {
      var t := turns[0];
      if used < |scripts| {
        assert scripts[used..][1..] == scripts[used + 1..];
        ClockForward(clock, t.ops);
      }
      TurnCalm(h, clock, t, now);
      later := TurnsCalm(Turned(h, t, now), ClockAfter(clock, t.ops), turns[1..], now, scripts, used + 1);
    }
  }

  /** With a clock that does not step back and timeouts that are not negative, runs lose nothing and fire in order. */
  lemma {:induction false} RunCalm(h: History, clock: int, rounds: seq<Round>, run: seq<Passed>)
    requires Calm(h, clock) && Numbered(h) && OrderlyRounds(clock, rounds) && IsRun(h, rounds, run)
    ensures AfterRounds(h, rounds, run).lost == {} && InOrder(AfterRounds(h, rounds, run))
    decreases |run|
  {
    if run != [] {
      var r, p := rounds[0], run[0];
      CalmLater(h, clock, r.now);
      assert r.scripts[0..] == r.scripts;
      var later := TurnsCalm(h, r.now, p.turns, r.now, r.scripts, 0);
      CalmLater(AfterTurns(h, p.turns, r.now), later, r.again);
      DidAllCalm(AfterTurns(h, p.turns, r.now), r.again, r.fdOps);
      RunCalm(AfterRound(h, r, p), ClockAfter(r.again, r.fdOps), rounds[1..], run[1..]);
    }
  }

  lemma CalmLater(h: History, clock: int, later: int)
    requires Calm(h, clock) && clock <= later
    ensures Calm(h, later)
  {
  }

  // ---------- runs that are not orderly ----------

  /** Only a timer that is open can be chosen. */
  lemma NothingToFire(h: History, turns: seq<Turn>, now: int, scripts: seq<seq<Op>>, used: nat)
    requires Follow(h, turns, now, scripts, used) && NoneDue(h, now)
    ensures turns == []
  {
  }

  /** With one open timer that is due, the first turn fires it. */
  lemma FiresFirst(h: History, turns: seq<Turn>, now: int, scripts: seq<seq<Op>>, id: nat)
    requires Processed(h, turns, now, scripts) && IsOpen(h, id) && h.expiry[id] <= now
    requires forall i :: IsOpen(h, i) ==> i == id
    ensures |turns| > 0 && turns[0].root == Timer(h.expiry[id], id, true) && turns[0].lastId == h.lastId
    ensures turns[0].ops == Script(scripts, 0)
  {
  }

  lemma NegativeLoses(now: int, next: nat)
    ensures Loses([Add(now, -1)], now, next)
  {
    var ops := [Add(now, -1)];
    var none: seq<Op> := [];
    assert ops[..0] == none && ops[0 + 1..] == none && ops[..0 + 1] == ops;
    assert LowersLast(ops, now, 0);
  }

  /** A round that adds a timer which is due at once, and a round in which it fires. */
  function OneTimer(now: int, callback: seq<Op>, fdOps: seq<Op>): seq<Round> {
    [Round(now, [], now, [Add(now, 0)]), Round(now, [callback], now, fdOps)]
  }

  /** The first round fires nothing, the second one the timer. */
  lemma OneTimerRun(now: int, callback: seq<Op>, fdOps: seq<Op>, rounds: seq<Round>, run: seq<Passed>)
    returns (h: History)
    requires |rounds| >= 2 && rounds[..2] == OneTimer(now, callback, fdOps) && IsRun(Nothing, rounds, run)
    ensures h == Added(Nothing, now)
    ensures |run| == |rounds| && run[0].turns == [] && Processed(h, run[1].turns, now, [callback])
    ensures |run[1].turns| > 0 && run[1].turns[0] == Turn(Timer(now, 1, true), 1, callback)
    ensures AfterRound(h, rounds[1], run[1]) == DidAll(AfterTurns(h, run[1].turns, now), fdOps)
    ensures IsRun(AfterRound(h, rounds[1], run[1]), rounds[2..], run[2..])
    ensures AfterRounds(Nothing, rounds, run) == AfterRounds(AfterRound(h, rounds[1], run[1]), rounds[2..], run[2..])
  {
    var ops := [Add(now, 0)];
    assert rounds[0] == rounds[..2][0] && rounds[1] == rounds[..2][1];
    NothingToFire(Nothing, run[0].turns, now, [], 0);
    h := Added(Nothing, now);
    assert ops[1..] == [];
    assert DidAll(Nothing, ops) == DidAll(h, []);
    assert AfterRound(Nothing, rounds[0], run[0]) == h;
    assert rounds[1..][0] == rounds[1] && rounds[1..][1..] == rounds[2..];
    assert run[1..][0] == run[1] && run[1..][1..] == run[2..];
    AddedOpen(Nothing, now);
    FiresFirst(h, run[1].turns, now, [callback], 1);
  }

  /** A callback that adds a timer with a negative timeout: every run of these rounds loses that timer. */
  lemma NegativeRunLoses(now: int, run: seq<Passed>)
    requires IsRun(Nothing, OneTimer(now, [Add(now, -1)], []), run)
    ensures AfterRounds(Nothing, OneTimer(now, [Add(now, -1)], []), run).lost != {}
  {
    var rounds := OneTimer(now, [Add(now, -1)], []);
    assert rounds[..2] == rounds;
    var h := OneTimerRun(now, [Add(now, -1)], [], rounds, run);
    NegativeLoses(now, 1);
    assert run[1].turns[0] in run[1].turns && run[1] in run;
    assert PassLoses(run[1]);
    RunLoses(Nothing, rounds, run);
  }

  /** A lone timer whose callback does nothing is the only one to fire. */
  lemma FiresAlone(h: History, turns: seq<Turn>, now: int, t: Timer)
    requires Processed(h, turns, now, [[]]) && |turns| > 0 && turns[0] == Turn(t, h.lastId, [])
    requires forall i :: IsOpen(h, i) ==> i == t.id
    ensures AfterTurns(h, turns, now) == FiredAt(h, t, now)
    ensures forall i :: !IsOpen(FiredAt(h, t, now), i)
  {
    FiredIds(h, t, now);
    assert Turned(h, turns[0], now) == FiredAt(h, t, now);
    NothingToFire(FiredAt(h, t, now), turns[1..], now, [[]], 1);
  }

  /** The rounds in which a timer is added after a firing, expired before. */
  function LateRounds(now: int): seq<Round> {
    OneTimer(now, [], [Add(now, -1)]) + [Round(now, [], now, [])]
  }

  /** Every run of these rounds fires out of order. */
  lemma LateRunFires(now: int, run: seq<Passed>)
    requires IsRun(Nothing, LateRounds(now), run)
    ensures !InOrder(AfterRounds(Nothing, LateRounds(now), run))
  {
    var rounds, ops := LateRounds(now), [Add(now, -1)];
    assert rounds[..2] == OneTimer(now, [], ops) && rounds[2..] == [Round(now, [], now, [])];
    var h := OneTimerRun(now, [], ops, rounds, run);
    AddedOpen(Nothing, now);
    FiresAlone(h, run[1].turns, now, Timer(now, 1, true));
    var h1 := FiredAt(h, Timer(now, 1, true), now);
    var h2 := AfterRound(h, rounds[1], run[1]);
    assert ops[1..] == [] && h2 == DidAll(Added(h1, now - 1), []);
    assert forall id :: IsOpen(h2, id) ==> id == 2;
    LastRound(h2, now, run[2..]);
  }

  lemma LastRound(h: History, now: int, run: seq<Passed>)
    requires |h.fired| == 1 && h.fired[0].expiration == now
    requires IsOpen(h, 2) && h.expiry[2] == now - 1 && forall i :: IsOpen(h, i) ==> i == 2
    requires IsRun(h, [Round(now, [], now, [])], run)
    ensures !InOrder(AfterRounds(h, [Round(now, [], now, [])], run))
  {
    var rounds := [Round(now, [], now, [])];
    assert rounds[1..] == [];
    FiresFirst(h, run[0].turns, now, [], 2);
    TurnsFire(h, run[0].turns, now, [], 0);
    RunFires(h, rounds, run);
    assert AllFirings(rounds, run) == Firings(run[0].turns, now) + [];
    assert AfterRounds(h, rounds, run).fired[1] == Firings(run[0].turns, now)[0];
    assert AfterRounds(h, rounds, run).fired[0] == h.fired[0];
  }
}
