/**
 * What callbacks do to the timers of src/event_loop.c, and what becomes of the root while they do:
 * a fired node is removed as the root only after its callback, which can have put another there.
 */
module CallbackScripts {
  import opened TimerHeap

  /** What a callback does to the loop's timers; an addition reads the clock. */
  datatype Op = Add(clock: int, timeout: int) | Cancel(id: nat)

  /** The clock never runs backwards and timeouts are not negative. */
  ghost predicate Orderly(clock: int, ops: seq<Op>)
    decreases |ops|
  {
    ops == [] ||
    match ops[0]
    case Add(c, timeout) => clock <= c && 0 <= timeout && Orderly(c, ops[1..])
    case Cancel(_) => Orderly(clock, ops[1..])
  }

  /** The clock after the operations. */
  ghost function ClockAfter(clock: int, ops: seq<Op>): int
    decreases |ops|
  {
    if ops == [] then clock
    else ClockAfter(if ops[0].Add? then ops[0].clock else clock, ops[1..])
  }

  // ---------- the root under operations ----------

  function Expires(op: Op): int
    requires op.Add?
  {
    op.clock + op.timeout
  }

  /** The root after one operation: an earlier timer takes its place, its own cancellation marks it. */
  function RootStep(r: Timer, next: nat, op: Op): Timer {
    match op
    case Add(clock, timeout) => if clock + timeout < r.expiration then Timer(clock + timeout, next + 1, true) else r
    case Cancel(id) => if id == r.id then r.(active := false) else r
  }

  function NextStep(next: nat, op: Op): nat {
    if op.Add? then next + 1 else next
  }

  function RootAfter(r: Timer, next: nat, ops: seq<Op>): Timer
    decreases |ops|
  {
    if ops == [] then r else RootAfter(RootStep(r, next, ops[0]), NextStep(next, ops[0]), ops[1..])
  }

  /** The last id given out after the operations. */
  function NextAfter(next: nat, ops: seq<Op>): nat
    decreases |ops|
  {
    if ops == [] then next else NextAfter(NextStep(next, ops[0]), ops[1..])
  }

  lemma {:induction false} RootConcat(r: Timer, next: nat, a: seq<Op>, b: seq<Op>)
    ensures RootAfter(r, next, a + b) == RootAfter(RootAfter(r, next, a), NextAfter(next, a), b)
    ensures NextAfter(next, a + b) == NextAfter(NextAfter(next, a), b)
    decreases |a|
  {
    if a == [] {
      assert a + b == b;
    } else {
      assert (a + b)[0] == a[0] && (a + b)[1..] == a[1..] + b;
      RootConcat(RootStep(r, next, a[0]), NextStep(next, a[0]), a[1..], b);
    }
  }

  lemma RootSnoc(r: Timer, next: nat, ops: seq<Op>, i: nat)
    requires i < |ops|
    ensures RootAfter(r, next, ops[..i + 1]) ==
            RootStep(RootAfter(r, next, ops[..i]), NextAfter(next, ops[..i]), ops[i])
    ensures NextAfter(next, ops[..i + 1]) == NextStep(NextAfter(next, ops[..i]), ops[i])
  {
    var last := [ops[i]];
    RootConcat(r, next, ops[..i], last);
    assert ops[..i + 1] == ops[..i] + last && last[1..] == [];
  }

  // ---------- when the removed root is an active timer ----------

  /** The least of `e` and what the additions expire at. */
  function Least(e: int, ops: seq<Op>): int
    decreases |ops|
  {
    if ops == [] then e
    else Least(if ops[0].Add? && Expires(ops[0]) < e then Expires(ops[0]) else e, ops[1..])
  }

  /** Operation `i` is the last addition that lowers the minimum below `e`. */
  predicate LowersLast(ops: seq<Op>, e: int, i: nat) {
    && i < |ops| && ops[i].Add? && Expires(ops[i]) < Least(e, ops[..i])
    && forall j :: i < j < |ops| && ops[j].Add? ==> Expires(ops[j]) >= Expires(ops[i])
  }

  /**
   * The script loses a timer: the last addition that lowers the minimum below the expiration of the
   * fired timer is not cancelled later in the script.
   */
  predicate Loses(ops: seq<Op>, e: int, next: nat) {
    exists i: nat :: i < |ops| && LowersLast(ops, e, i) && Cancel(NextAfter(next, ops[..i + 1])) !in ops[i + 1..]
  }

  lemma {:induction false} RootIsLeast(r: Timer, next: nat, ops: seq<Op>)
    ensures RootAfter(r, next, ops).expiration == Least(r.expiration, ops)
    decreases |ops|
  {
    if ops != [] {
      RootIsLeast(RootStep(r, next, ops[0]), NextStep(next, ops[0]), ops[1..]);
    }
  }

  lemma {:induction false} Undisturbed(r: Timer, next: nat, ops: seq<Op>)
    requires forall op <- ops :: op.Add? ==> Expires(op) >= r.expiration
    ensures RootAfter(r, next, ops) == r.(active := r.active && Cancel(r.id) !in ops)
    decreases |ops|
  {
    if ops != [] {
      assert ops[0] in ops && forall op <- ops[1..] :: op in ops;
      assert forall op <- ops :: op == ops[0] || op in ops[1..];
      Undisturbed(RootStep(r, next, ops[0]), NextStep(next, ops[0]), ops[1..]);
    }
  }

  lemma {:induction false} LeastBound(e: int, ops: seq<Op>)
    ensures Least(e, ops) <= e && forall op <- ops :: op.Add? ==> Least(e, ops) <= Expires(op)
    decreases |ops|
  {
    if ops != [] {
      LeastBound(if ops[0].Add? && Expires(ops[0]) < e then Expires(ops[0]) else e, ops[1..]);
      assert forall op <- ops :: op == ops[0] || op in ops[1..];
    }
  }

  /** Where the minimum was last lowered, there is the root, and it is active unless cancelled since. */
  lemma LoweredRoot(r: Timer, next: nat, ops: seq<Op>, i: nat)
    requires LowersLast(ops, r.expiration, i)
    ensures var id := NextAfter(next, ops[..i + 1]);
            RootAfter(r, next, ops) == Timer(Expires(ops[i]), id, Cancel(id) !in ops[i + 1..])
  {
    var a, b := ops[..i + 1], ops[i + 1..];
    assert ops == a + b;
    RootConcat(r, next, a, b);
    RootSnoc(r, next, ops, i);
    RootIsLeast(r, next, ops[..i]);
    forall op | op in b && op.Add?
      ensures Expires(op) >= Expires(ops[i])
    {
      var j :| 0 <= j < |b| && b[j] == op;
      assert ops[i + 1 + j] == op;
    }
    Undisturbed(RootAfter(r, next, a), NextAfter(next, a), b);
  }

  lemma {:induction false} LoweringExists(e: int, ops: seq<Op>) returns (i: nat)
    requires Least(e, ops) < e
    ensures LowersLast(ops, e, i)
    decreases |ops|
  {
    var op, more := ops[0], ops[1..];
    var e' := if op.Add? && Expires(op) < e then Expires(op) else e;
    if Least(e', more) < e' {
      var k := LoweringExists(e', more);
      i := k + 1;
      assert ops[..i][1..] == more[..k] && ops[..i][0] == op;
      assert forall j :: i < j < |ops| ==> ops[j] == more[j - 1];
    } else {
      i := 0;
      LeastBound(e', more);
      assert ops[..0] == [];
      assert forall j :: 0 < j < |ops| ==> ops[j] == more[j - 1] && ops[j] in more;
    }
  }

  /** The exact condition: behind a root that is not active any more, the root ends up active. */
  lemma LosesExactly(r: Timer, next: nat, ops: seq<Op>)
    requires !r.active
    ensures RootAfter(r, next, ops).active <==> Loses(ops, r.expiration, next)
  {
    if Least(r.expiration, ops) < r.expiration {
      var i := LoweringExists(r.expiration, ops);
      LoweredRoot(r, next, ops, i);
    } else {
      LeastBound(r.expiration, ops);
      Undisturbed(r, next, ops);
    }
    if Loses(ops, r.expiration, next) {
      var i: nat :| i < |ops| && LowersLast(ops, r.expiration, i) &&
                    Cancel(NextAfter(next, ops[..i + 1])) !in ops[i + 1..];
      LoweredRoot(r, next, ops, i);
    }
  }

  /** With an orderly clock and timeouts that are not negative, a due root loses nothing. */
  lemma {:induction false} OrderlyLowersNothing(clock: int, ops: seq<Op>, e: int)
    requires Orderly(clock, ops) && e <= clock
    ensures Least(e, ops) == e
    decreases |ops|
  {
    if ops != [] {
      OrderlyLowersNothing(if ops[0].Add? then ops[0].clock else clock, ops[1..], e);
    }
  }

  lemma OrderlyLosesNothing(clock: int, ops: seq<Op>, e: int, next: nat)
    requires Orderly(clock, ops) && e <= clock
    ensures !Loses(ops, e, next)
  {
    var r := Timer(e, 0, false);
    OrderlyLowersNothing(clock, ops, e);
    LeastBound(e, ops);
    Undisturbed(r, next, ops);
    LosesExactly(r, next, ops);
  }

  /** The operation adds a timer that expires before `expiration`. */
  predicate Displaces(op: Op, expiration: int) {
    op.Add? && Expires(op) < expiration
  }

  /** A fired root is still the root after its callback if and only if nothing displaces it. */
  lemma {:induction false} RootStaysExactly(r: Timer, next: nat, ops: seq<Op>)
    requires !r.active
    ensures RootAfter(r, next, ops) == r <==> forall op <- ops :: !Displaces(op, r.expiration)
  {
    RootIsLeast(r, next, ops);
    LeastBound(r.expiration, ops);
    if forall op <- ops :: !Displaces(op, r.expiration) {
      Undisturbed(r, next, ops);
    }
  }
}
