/**
 * What happened to each timer: the history of an event loop, and the ledger that links it to the
 * timers in the heap. Clock readings and timeouts are of any kind.
 */
module TimerHistory {
  import opened Bytes
  import opened TimerHeap

  /** `lastId` is the last id given out before the firing. */
  datatype Firing = Firing(id: nat, expiration: int, now: int, lastId: nat)

  /** `expiry` has every timer ever added; the others say what became of it. */
  datatype History =
    History(lastId: nat, expiry: map<nat, int>, cancelled: set<nat>, fired: seq<Firing>, lost: set<nat>)

  const Nothing: History := History(0, map[], {}, [], {})

  ghost predicate HasFired(h: History, id: nat) {
    exists k :: 0 <= k < |h.fired| && h.fired[k].id == id
  }

  /** The timer waits to be fired. */
  ghost predicate IsOpen(h: History, id: nat) {
    id in h.expiry && !HasFired(h, id) && id !in h.cancelled && id !in h.lost
  }

  /** Each timer fires at most once, never early, never once cancelled. */
  ghost predicate FiredOnce(h: History) {
    && (forall k :: 0 <= k < |h.fired| ==>
          && h.fired[k].id in h.expiry && h.fired[k].expiration == h.expiry[h.fired[k].id]
          && h.fired[k].expiration <= h.fired[k].now && h.fired[k].id !in h.cancelled)
    && (forall j, k :: 0 <= j < k < |h.fired| ==> h.fired[j].id != h.fired[k].id)
  }

  /** The timers in the heap are known, distinct, and active exactly while they are open. */
  ghost predicate Followed(pending: multiset<Timer>, h: History) {
    && (forall t <- pending :: pending[t] == 1)
    && (forall t, u :: t in pending && u in pending && t.id == u.id ==> t == u)
    && (forall t <- pending ::
          t.id in h.expiry && t.expiration == h.expiry[t.id] && (t.active <==> IsOpen(h, t.id)))
  }

  /** Every open timer is in the heap. */
  ghost predicate OpenPending(pending: multiset<Timer>, h: History) {
    forall id <- h.expiry :: IsOpen(h, id) ==> Timer(h.expiry[id], id, true) in pending
  }

  /** The lost timers have neither fired nor been cancelled. */
  ghost predicate LostSound(h: History) {
    h.lost <= h.expiry.Keys && forall id <- h.lost :: !HasFired(h, id) && id !in h.cancelled
  }

  ghost predicate Ledger(pending: multiset<Timer>, h: History) {
    && (forall id :: id in h.expiry <==> 1 <= id <= h.lastId)
    && h.cancelled <= h.expiry.Keys
    && FiredOnce(h) && LostSound(h) && Followed(pending, h) && OpenPending(pending, h)
  }

  /** No timer has left the heap that is neither fired nor cancelled. */
  ghost predicate NoneLost(pending: multiset<Timer>, h: History) {
    forall id <- h.expiry ::
      HasFired(h, id) || id in h.cancelled || Timer(h.expiry[id], id, true) in pending
  }

  lemma NoneLostExactly(pending: multiset<Timer>, h: History)
    requires Ledger(pending, h)
    ensures NoneLost(pending, h) <==> h.lost == {}
  {
    if h.lost != {} {
      var id :| id in h.lost;
      assert id in h.expiry && !IsOpen(h, id);
    } else {
      assert forall id <- h.expiry :: HasFired(h, id) || id in h.cancelled || IsOpen(h, id);
    }
  }

  /** Every timer ever added has exactly one of four fates; it is open exactly while the heap has it, active. */
  lemma OneOfFour(pending: multiset<Timer>, h: History, id: nat)
    requires Ledger(pending, h) && 1 <= id <= h.lastId
    ensures IsOpen(h, id) <==> Timer(h.expiry[id], id, true) in pending
    ensures HasFired(h, id) || id in h.cancelled || id in h.lost || IsOpen(h, id)
    ensures !(HasFired(h, id) && id in h.cancelled) && !(HasFired(h, id) && id in h.lost)
    ensures !(id in h.cancelled && id in h.lost)
    ensures IsOpen(h, id) ==> !HasFired(h, id) && id !in h.cancelled && id !in h.lost
    ensures forall j, k :: 0 <= j < |h.fired| && 0 <= k < |h.fired| && h.fired[j].id == id == h.fired[k].id ==> j == k
  {
    assert id in h.expiry;
  }

  /** `Ledger`, behind a quantifier that opens at `Opened(h)` only: the loop's methods pass it on whole. */
  ghost predicate Kept(pending: multiset<Timer>, h: History) {
    forall x: History {:trigger Opened(x)} :: Opened(x) && x == h ==> Ledger(pending, x)
  }

  lemma KeptIsLedger(pending: multiset<Timer>, h: History)
    ensures Kept(pending, h) <==> Ledger(pending, h)
  {
    assert Opened(h);
  }

  // ---------- a timer is added ----------

  function Added(h: History, expiration: int): History {
    h.(lastId := h.lastId + 1, expiry := h.expiry[h.lastId + 1 := expiration])
  }

  lemma AddedOpen(h: History, expiration: int)
    requires forall id :: id in h.expiry <==> 1 <= id <= h.lastId
    requires h.cancelled <= h.expiry.Keys && FiredOnce(h) && LostSound(h)
    ensures FiredOnce(Added(h, expiration)) && LostSound(Added(h, expiration))
    ensures forall id: nat :: HasFired(Added(h, expiration), id) <==> HasFired(h, id)
    ensures forall id :: IsOpen(Added(h, expiration), id) <==> IsOpen(h, id) || id == h.lastId + 1
  {
    var h', next := Added(h, expiration), h.lastId + 1;
    assert next !in h.expiry;
    assert forall id: nat :: HasFired(h', id) <==> HasFired(h, id);
    assert !HasFired(h, next);
  }

  lemma AddedFollowed(pending: multiset<Timer>, h: History, h': History, t: Timer)
    requires Followed(pending, h) && t.active && t.id !in h.expiry
    requires h'.expiry == h.expiry[t.id := t.expiration]
    requires forall id :: IsOpen(h', id) <==> IsOpen(h, id) || id == t.id
    ensures Followed(pending + multiset{t}, h')
  {
    assert forall u :: u in pending + multiset{t} <==> u in pending || u == t;
    assert t !in pending;
  }

  lemma AddedLedger(pending: multiset<Timer>, h: History, expiration: int)
    requires Ledger(pending, h)
    ensures Ledger(pending + multiset{Timer(expiration, h.lastId + 1, true)}, Added(h, expiration))
  {
    AddedOpen(h, expiration);
    AddedFollowed(pending, h, Added(h, expiration), Timer(expiration, h.lastId + 1, true));
  }

  lemma AddKept(pending: multiset<Timer>, h: History, expiration: int)
    requires Kept(pending, h)
    ensures Kept(pending + multiset{Timer(expiration, h.lastId + 1, true)}, Added(h, expiration))
  {
    KeptIsLedger(pending, h);
    AddedLedger(pending, h, expiration);
    KeptIsLedger(pending + multiset{Timer(expiration, h.lastId + 1, true)}, Added(h, expiration));
  }

  // ---------- a timer is settled, and stays in the heap ----------

  function Settled(pending: multiset<Timer>, t: Timer): multiset<Timer> {
    pending - multiset{t} + multiset{t.(active := false)}
  }

  lemma SettledFollowed(pending: multiset<Timer>, h: History, h': History, t: Timer)
    requires Followed(pending, h) && t in pending && t.active && h'.expiry == h.expiry
    requires forall id :: IsOpen(h', id) <==> IsOpen(h, id) && id != t.id
    ensures Followed(Settled(pending, t), h')
  {
    var u := t.(active := false);
    assert u !in pending;
    assert forall v :: v in Settled(pending, t) <==> (v in pending && v != t) || v == u;
  }

  lemma SettledPending(pending: multiset<Timer>, h: History, h': History, t: Timer)
    requires OpenPending(pending, h) && h'.expiry == h.expiry
    requires forall id :: IsOpen(h', id) <==> IsOpen(h, id) && id != t.id
    ensures OpenPending(Settled(pending, t), h')
  {
  }

  function Cancelled(h: History, id: nat): History {
    h.(cancelled := h.cancelled + {id})
  }

  lemma CancelledOpen(h: History, id: nat)
    requires FiredOnce(h) && LostSound(h) && IsOpen(h, id)
    ensures FiredOnce(Cancelled(h, id)) && LostSound(Cancelled(h, id))
    ensures forall i :: IsOpen(Cancelled(h, id), i) <==> IsOpen(h, i) && i != id
  {
    assert forall i: nat :: HasFired(Cancelled(h, id), i) <==> HasFired(h, i);
  }

  lemma CancelledLedger(pending: multiset<Timer>, h: History, t: Timer)
    requires Ledger(pending, h) && t in pending && t.active
    ensures Ledger(Settled(pending, t), Cancelled(h, t.id))
  {
    CancelledOpen(h, t.id);
    SettledFollowed(pending, h, Cancelled(h, t.id), t);
    SettledPending(pending, h, Cancelled(h, t.id), t);
  }

  /** What a cancellation looks for in the heap is an open timer. */
  lemma OpenIsActive(pending: multiset<Timer>, h: History, id: nat)
    requires Kept(pending, h)
    ensures IsOpen(h, id) <==> exists t :: t in pending && t.id == id && t.active
  {
    KeptIsLedger(pending, h);
    if IsOpen(h, id) {
      assert Timer(h.expiry[id], id, true) in pending;
    }
  }

  lemma CancelKept(pending: multiset<Timer>, h: History, t: Timer)
    requires Kept(pending, h) && t in pending && t.active
    ensures Kept(Settled(pending, t), Cancelled(h, t.id))
  {
    KeptIsLedger(pending, h);
    CancelledLedger(pending, h, t);
    KeptIsLedger(Settled(pending, t), Cancelled(h, t.id));
  }

  function FiredAt(h: History, t: Timer, now: int): History {
    h.(fired := h.fired + [Firing(t.id, t.expiration, now, h.lastId)])
  }

  lemma FiredIds(h: History, t: Timer, now: int)
    ensures forall i: nat :: HasFired(FiredAt(h, t, now), i) <==> HasFired(h, i) || i == t.id
    ensures forall i :: IsOpen(FiredAt(h, t, now), i) <==> IsOpen(h, i) && i != t.id
  {
    var h' := FiredAt(h, t, now);
    assert h'.fired[|h.fired|].id == t.id;
    assert forall k :: 0 <= k < |h.fired| ==> h'.fired[k] == h.fired[k];
  }

  lemma FiredStillOnce(h: History, t: Timer, now: int)
    requires FiredOnce(h) && LostSound(h) && IsOpen(h, t.id) && h.expiry[t.id] == t.expiration <= now
    ensures FiredOnce(FiredAt(h, t, now)) && LostSound(FiredAt(h, t, now))
  {
    var h' := FiredAt(h, t, now);
    FiredIds(h, t, now);
    assert h'.fired[|h.fired|] == Firing(t.id, t.expiration, now, h.lastId);
    assert forall k :: 0 <= k < |h.fired| ==> h'.fired[k] == h.fired[k] && h.fired[k].id != t.id;
  }

  lemma FiredLedger(pending: multiset<Timer>, h: History, t: Timer, now: int)
    requires Ledger(pending, h) && t in pending && t.active && t.expiration <= now
    ensures Ledger(Settled(pending, t), FiredAt(h, t, now))
  {
    FiredStillOnce(h, t, now);
    FiredIds(h, t, now);
    SettledFollowed(pending, h, FiredAt(h, t, now), t);
    SettledPending(pending, h, FiredAt(h, t, now), t);
  }

  lemma FireKept(pending: multiset<Timer>, h: History, t: Timer, now: int)
    requires Kept(pending, h) && t in pending && t.active && t.expiration <= now
    ensures Kept(Settled(pending, t), FiredAt(h, t, now))
  {
    KeptIsLedger(pending, h);
    FiredLedger(pending, h, t, now);
    KeptIsLedger(Settled(pending, t), FiredAt(h, t, now));
  }

  // ---------- timers leave the heap ----------

  /** A timer that leaves the heap while it is active is lost. */
  function Dropped(h: History, t: Timer): History {
    if t.active then h.(lost := h.lost + {t.id}) else h
  }

  /** An active timer that leaves the heap is lost, an inactive one is not, and nothing else is. */
  lemma DroppedLedger(pending: multiset<Timer>, h: History, t: Timer)
    requires Ledger(pending, h) && t in pending
    ensures Ledger(pending - multiset{t}, Dropped(h, t))
    ensures t.active ==> t.id !in h.lost
  {
    var h' := Dropped(h, t);
    assert forall v :: v in pending - multiset{t} <==> v in pending && v != t;
    assert forall i: nat :: HasFired(h', i) <==> HasFired(h, i);
    assert forall i :: IsOpen(h', i) <==> IsOpen(h, i) && !(t.active && i == t.id);
  }

  lemma DropKept(pending: multiset<Timer>, h: History, t: Timer)
    requires Kept(pending, h) && t in pending
    ensures Kept(pending - multiset{t}, Dropped(h, t))
  {
    KeptIsLedger(pending, h);
    DroppedLedger(pending, h, t);
    KeptIsLedger(pending - multiset{t}, Dropped(h, t));
  }

  /** Timers whose fate is settled can leave. */
  lemma PruneKept(pending: multiset<Timer>, fewer: multiset<Timer>, h: History)
    requires Kept(pending, h) && fewer <= pending
    requires forall t :: t in pending && t.active ==> t in fewer
    ensures Kept(fewer, h)
  {
    KeptIsLedger(pending, h);
    assert forall t :: t in fewer ==> t in pending && fewer[t] == 1;
    KeptIsLedger(fewer, h);
  }
}
