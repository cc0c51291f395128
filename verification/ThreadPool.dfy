/**
 * The thread pool of src/thread_pool.c as a step system: any number of workers and of pushing
 * clients, and one thread that frees the pool. Lock acquisition, the critical sections' single
 * statements, waiting, signalling and spurious wakeups are separate steps.
 */
module ThreadPool {

  type Task = int

  datatype Worker =
    | WLock | WTest | WWait | WRelock
    | WPop | WUnlock(task: Task, ticket: nat) | WRun(task: Task, ticket: nat)
    | WStop | WExited

  datatype Client = Idle | PLock(task: Task) | PTest(task: Task) | PAppend(task: Task) | PSignal | PUnlock

  datatype Freer = FIdle | FLock | FSetStop | FBroadcast | FUnlock | FJoin(next: nat) | FDone

  datatype Owner = Nobody | ByWorker(w: nat) | ByClient(c: nat) | ByFreer

  /**
   * `accepted`, `popped` and `ran` record history: the tasks that push accepted, how many were
   * taken, and the tickets (positions among the accepted) of the callbacks that have returned.
   */
  datatype State = State(
    workers: seq<Worker>, clients: seq<Client>, freer: Freer, owner: Owner,
    queue: seq<Task>, stop: bool,
    accepted: seq<Task>, popped: nat, ran: seq<nat>)

  datatype Action =
    | WorkerStep(w: nat)
    | Spurious(w: nat)
    | Push(c: nat, task: Task)
    | ClientStep(c: nat)
    | Signal(c: nat, woken: nat)
    | Free
    | FreerStep

  ghost predicate Initial(s: State) {
    && s.workers != [] && (forall i :: 0 <= i < |s.workers| ==> s.workers[i] == WLock)
    && (forall j :: 0 <= j < |s.clients| ==> s.clients[j] == Idle)
    && s.freer == FIdle && s.owner == Nobody && s.queue == [] && !s.stop
    && s.accepted == [] && s.popped == 0 && s.ran == []
  }

  // ---------- steps ----------

  ghost predicate NoneWaiting(ws: seq<Worker>) {
    forall i :: 0 <= i < |ws| ==> ws[i] != WWait
  }

  ghost predicate Enabled(s: State, a: Action) {
    match a
    case WorkerStep(w) =>
      w < |s.workers| &&
      (match s.workers[w]
       case WLock => s.owner == Nobody
       case WRelock => s.owner == Nobody
       case WWait => false
       case WExited => false
       case WPop => s.queue != []
       case _ => true)
    case Spurious(w) => w < |s.workers| && s.workers[w] == WWait
    case Push(c, _) => c < |s.clients| && s.clients[c] == Idle && s.freer != FDone
    case ClientStep(c) =>
      c < |s.clients| &&
      (match s.clients[c]
       case PLock(_) => s.owner == Nobody
       case Idle => false
       case PSignal => false
       case _ => true)
    // the signal wakes a waiting worker, if there is one
    case Signal(c, woken) =>
      c < |s.clients| && s.clients[c] == PSignal &&
      ((woken < |s.workers| && s.workers[woken] == WWait) || NoneWaiting(s.workers))
    case Free => s.freer == FIdle
    case FreerStep =>
      (match s.freer
       case FIdle => false
       case FLock => s.owner == Nobody
       case FJoin(i) => i < |s.workers| ==> s.workers[i] == WExited
       case FDone => false
       case _ => true)
  }

  function Put(s: State, w: nat, to: Worker, owner: Owner): State
    requires w < |s.workers|
  {
    s.(workers := s.workers[w := to], owner := owner)
  }

  function WorkerNext(s: State, w: nat): State
    requires w < |s.workers| && (s.workers[w] == WPop ==> s.queue != [])
  {
    match s.workers[w]
    case WLock => Put(s, w, WTest, ByWorker(w))
    case WRelock => Put(s, w, WTest, ByWorker(w))
    case WTest =>
      if !s.stop && s.queue == [] then Put(s, w, WWait, Nobody)
      else if s.stop && s.queue == [] then Put(s, w, WStop, s.owner)
      else Put(s, w, WPop, s.owner)
    case WPop => Put(s, w, WUnlock(s.queue[0], s.popped), s.owner).(queue := s.queue[1..], popped := s.popped + 1)
    case WUnlock(task, ticket) => Put(s, w, WRun(task, ticket), Nobody)
    case WRun(task, ticket) => Put(s, w, WLock, s.owner).(ran := s.ran + [ticket])
    case WStop => Put(s, w, WExited, Nobody)
    case _ => s
  }

  function PutClient(s: State, c: nat, to: Client, owner: Owner): State
    requires c < |s.clients|
  {
    s.(clients := s.clients[c := to], owner := owner)
  }

  function ClientNext(s: State, c: nat): State
    requires c < |s.clients|
  {
    match s.clients[c]
    case PLock(task) => PutClient(s, c, PTest(task), ByClient(c))
    case PTest(task) => PutClient(s, c, if s.stop then PUnlock else PAppend(task), s.owner)
    case PAppend(task) =>
      PutClient(s, c, PSignal, s.owner).(queue := s.queue + [task], accepted := s.accepted + [task])
    case PUnlock => PutClient(s, c, Idle, Nobody)
    case _ => s
  }

  function Woken(w: Worker): Worker {
    if w == WWait then WRelock else w
  }

  function AllWoken(ws: seq<Worker>): (r: seq<Worker>)
    ensures |r| == |ws|
  {
    seq(|ws|, i requires 0 <= i < |ws| => Woken(ws[i]))
  }

  function FreerNext(s: State): State {
    match s.freer
    case FLock => s.(freer := FSetStop, owner := ByFreer)
    case FSetStop => s.(freer := FBroadcast, stop := true)
    case FBroadcast => s.(freer := FUnlock, workers := AllWoken(s.workers))
    case FUnlock => s.(freer := FJoin(0), owner := Nobody)
    case FJoin(i) => s.(freer := if i < |s.workers| then FJoin(i + 1) else FDone)
    case _ => s
  }

  function Apply(s: State, a: Action): State
    requires Enabled(s, a)
  {
    match a
    case WorkerStep(w) => WorkerNext(s, w)
    case Spurious(w) => Put(s, w, WRelock, s.owner)
    case Push(c, task) => PutClient(s, c, PLock(task), s.owner)
    case ClientStep(c) => ClientNext(s, c)
    case Signal(c, woken) =>
      var t := PutClient(s, c, PUnlock, s.owner);
      if woken < |s.workers| then t.(workers := s.workers[woken := Woken(s.workers[woken])]) else t
    case Free => s.(freer := FLock)
    case FreerStep => FreerNext(s)
  }

  ghost predicate Runs(s: State, actions: seq<Action>, t: State)
    decreases |actions|
  {
    if actions == [] then s == t
    else Enabled(s, actions[0]) && Runs(Apply(s, actions[0]), actions[1..], t)
  }

  ghost predicate Reachable(s: State) {
    exists s0, actions :: Initial(s0) && Runs(s0, actions, s)
  }

  // ---------- invariant ----------

  predicate WorkerHolds(w: Worker) {
    w == WTest || w == WPop || w.WUnlock? || w == WStop
  }

  predicate ClientHolds(c: Client) {
    c.PTest? || c.PAppend? || c == PSignal || c == PUnlock
  }

  predicate FreerHolds(f: Freer) {
    f == FSetStop || f == FBroadcast || f == FUnlock
  }

  /** The mutex has the owner that its state names, and no other holder. */
  ghost predicate Exclusive(s: State) {
    && (forall i :: 0 <= i < |s.workers| ==> (WorkerHolds(s.workers[i]) <==> s.owner == ByWorker(i)))
    && (forall j :: 0 <= j < |s.clients| ==> (ClientHolds(s.clients[j]) <==> s.owner == ByClient(j)))
    && (FreerHolds(s.freer) <==> s.owner == ByFreer)
    && (s.owner.ByWorker? ==> s.owner.w < |s.workers|)
    && (s.owner.ByClient? ==> s.owner.c < |s.clients|)
  }

  predicate InFlight(w: Worker) {
    w.WUnlock? || w.WRun?
  }

  /** Accepted tasks are the popped ones followed by the queue; each popped one is in flight or has run, once. */
  ghost predicate Conserved(s: State) {
    && s.popped <= |s.accepted| && s.queue == s.accepted[s.popped..]
    && (forall i :: 0 <= i < |s.workers| && InFlight(s.workers[i]) ==>
          var w := s.workers[i];
          w.ticket < s.popped && w.task == s.accepted[w.ticket] && w.ticket !in s.ran)
    && (forall i, k :: 0 <= i < k < |s.workers| && InFlight(s.workers[i]) && InFlight(s.workers[k]) ==>
          s.workers[i].ticket != s.workers[k].ticket)
    && (forall i, k :: 0 <= i < k < |s.ran| ==> s.ran[i] != s.ran[k])
    && (forall t <- s.ran :: t < s.popped)
    && (forall t :: 0 <= t < s.popped ==> t in s.ran || Carried(s.workers, t))
  }

  ghost predicate Carried(ws: seq<Worker>, ticket: nat) {
    exists i :: 0 <= i < |ws| && InFlight(ws[i]) && ws[i].ticket == ticket
  }

  predicate Stopping(f: Freer) {
    f == FBroadcast || f == FUnlock || f.FJoin? || f == FDone
  }

  /** What each place of a thread knows about the pool. */
  ghost predicate Phases(s: State) {
    && s.workers != []
    && (s.stop <==> Stopping(s.freer))
    && (forall i :: 0 <= i < |s.workers| ==>
          && (s.workers[i] == WPop ==> s.queue != [])
          && (s.workers[i] == WStop || s.workers[i] == WExited ==> s.stop && s.queue == []))
    && (forall j :: 0 <= j < |s.clients| ==> (s.clients[j].PAppend? || s.clients[j] == PSignal ==> !s.stop))
    && (s.freer.FJoin? ==> s.freer.next <= |s.workers|)
    && (s.freer.FJoin? ==> forall i :: 0 <= i < s.freer.next ==> s.workers[i] == WExited)
    && (s.freer == FDone ==> forall i :: 0 <= i < |s.workers| ==> s.workers[i] == WExited)
  }

  /** Somebody will look at the queue. */
  ghost predicate Attended(ws: seq<Worker>) {
    exists i :: 0 <= i < |ws| && ws[i] != WWait && ws[i] != WExited
  }

  ghost predicate Signalling(cs: seq<Client>) {
    exists j :: 0 <= j < |cs| && cs[j] == PSignal
  }

  /** No lost wakeup. */
  ghost predicate Awake(s: State) {
    && (s.queue != [] ==> Attended(s.workers) || Signalling(s.clients))
    && (s.stop && s.freer != FBroadcast ==> NoneWaiting(s.workers))
  }

  ghost predicate Invariant(s: State) {
    Exclusive(s) && Conserved(s) && Phases(s) && Awake(s)
  }

  // ---------- worker steps ----------

  lemma WorkerExclusive(s: State, w: nat)
    requires Invariant(s) && Enabled(s, WorkerStep(w))
    ensures Exclusive(WorkerNext(s, w))
  {
  }

  lemma WorkerPhases(s: State, w: nat)
    requires Invariant(s) && Enabled(s, WorkerStep(w))
    ensures Phases(WorkerNext(s, w))
  {
  }

  lemma WorkerAwake(s: State, w: nat)
    requires Invariant(s) && Enabled(s, WorkerStep(w))
    ensures Awake(WorkerNext(s, w))
  {
    var t := WorkerNext(s, w);
    assert t.clients == s.clients;
    assert t.workers[w] != WWait && t.workers[w] != WExited ==> Attended(t.workers);
  }

  /** A step that leaves the tickets alone. */
  lemma SameTickets(s: State, w: nat, to: Worker)
    requires Conserved(s) && w < |s.workers| && InFlight(s.workers[w]) == InFlight(to)
    requires InFlight(to) ==> to.ticket == s.workers[w].ticket && to.task == s.workers[w].task
    ensures forall owner :: Conserved(Put(s, w, to, owner))
  {
    var ws := s.workers[w := to];
    forall t | 0 <= t < s.popped
      ensures t in s.ran || Carried(ws, t)
    {
      if t !in s.ran {
        var i :| 0 <= i < |s.workers| && InFlight(s.workers[i]) && s.workers[i].ticket == t;
        assert InFlight(ws[i]) && ws[i].ticket == t;
      }
    }
  }

  lemma PopConserves(s: State, w: nat)
    requires Invariant(s) && Enabled(s, WorkerStep(w)) && s.workers[w] == WPop
    ensures Conserved(WorkerNext(s, w))
  {
    var t := WorkerNext(s, w);
    assert s.queue[0] == s.accepted[s.popped] && t.queue == t.accepted[t.popped..];
    forall k | 0 <= k < t.popped
      ensures k in t.ran || Carried(t.workers, k)
    {
      if k == s.popped {
        assert InFlight(t.workers[w]) && t.workers[w].ticket == k;
      } else if k !in s.ran {
        var i :| 0 <= i < |s.workers| && InFlight(s.workers[i]) && s.workers[i].ticket == k;
        assert InFlight(t.workers[i]) && t.workers[i].ticket == k;
      }
    }
  }

  lemma RunConserves(s: State, w: nat)
    requires Invariant(s) && Enabled(s, WorkerStep(w)) && s.workers[w].WRun?
    ensures Conserved(WorkerNext(s, w))
  {
    var t := WorkerNext(s, w);
    var ticket := s.workers[w].ticket;
    forall k | 0 <= k < t.popped
      ensures k in t.ran || Carried(t.workers, k)
    {
      if k == ticket {
        assert t.ran[|s.ran|] == k;
      } else if k in s.ran {
        assert k in t.ran;
      } else {
        var i :| 0 <= i < |s.workers| && InFlight(s.workers[i]) && s.workers[i].ticket == k;
        assert InFlight(t.workers[i]) && t.workers[i].ticket == k;
      }
    }
  }

  lemma WorkerConserves(s: State, w: nat)
    requires Invariant(s) && Enabled(s, WorkerStep(w))
    ensures Conserved(WorkerNext(s, w))
  {
    if s.workers[w] == WPop {
      PopConserves(s, w);
    } else if s.workers[w].WRun? {
      RunConserves(s, w);
    } else {
      var t := WorkerNext(s, w);
      SameTickets(s, w, t.workers[w]);
      assert t == Put(s, w, t.workers[w], t.owner);
    }
  }

  lemma WorkerKeeps(s: State, w: nat)
    requires Invariant(s) && Enabled(s, WorkerStep(w))
    ensures Invariant(WorkerNext(s, w))
  {
    WorkerExclusive(s, w);
    WorkerConserves(s, w);
    WorkerPhases(s, w);
    WorkerAwake(s, w);
  }

  lemma SpuriousKeeps(s: State, w: nat)
    requires Invariant(s) && Enabled(s, Spurious(w))
    ensures Invariant(Put(s, w, WRelock, s.owner))
  {
    var t := Put(s, w, WRelock, s.owner);
    SameTickets(s, w, WRelock);
    assert t.workers[w] == WRelock;
    assert Attended(t.workers);
  }

  // ---------- client steps ----------

  lemma AppendConserves(s: State, c: nat)
    requires Invariant(s) && Enabled(s, ClientStep(c)) && s.clients[c].PAppend?
    ensures Conserved(ClientNext(s, c))
  {
    var t := ClientNext(s, c);
    assert t.workers == s.workers;
    assert forall k :: 0 <= k < |s.accepted| ==> t.accepted[k] == s.accepted[k];
    assert t.queue == t.accepted[t.popped..];
  }

  lemma SignalsKept(s: State, c: nat, to: Client, owner: Owner)
    requires c < |s.clients| && s.clients[c] != PSignal
    ensures var t := PutClient(s, c, to, owner);
            forall j :: 0 <= j < |s.clients| && s.clients[j] == PSignal ==> t.clients[j] == PSignal
  {
  }

  lemma ClientKeeps(s: State, c: nat)
    requires Invariant(s) && Enabled(s, ClientStep(c))
    ensures Invariant(ClientNext(s, c))
  {
    var t := ClientNext(s, c);
    assert t.workers == s.workers;
    if s.clients[c].PAppend? {
      AppendConserves(s, c);
      assert t.clients[c] == PSignal;
    } else {
      SignalsKept(s, c, t.clients[c], t.owner);
    }
  }

  lemma PushKeeps(s: State, c: nat, task: Task)
    requires Invariant(s) && Enabled(s, Push(c, task))
    ensures Invariant(PutClient(s, c, PLock(task), s.owner))
  {
    var t := PutClient(s, c, PLock(task), s.owner);
    SignalsKept(s, c, PLock(task), s.owner);
  }

  lemma SignalKeeps(s: State, c: nat, woken: nat)
    requires Invariant(s) && Enabled(s, Signal(c, woken))
    ensures Invariant(Apply(s, Signal(c, woken)))
  {
    var t := Apply(s, Signal(c, woken));
    assert !s.stop;
    if woken < |s.workers| {
      SameTickets(s, woken, Woken(s.workers[woken]));
      assert s.workers[woken] != WExited;
      assert t.workers[woken] != WWait && t.workers[woken] != WExited;
    } else {
      assert t.workers[0] != WWait && t.workers[0] != WExited;
    }
    assert Attended(t.workers);
  }

  // ---------- the freeing thread ----------

  lemma BroadcastKeeps(s: State)
    requires Invariant(s) && s.freer == FBroadcast
    ensures Invariant(FreerNext(s))
  {
    var t := FreerNext(s);
    forall k | 0 <= k < s.popped
      ensures k in t.ran || Carried(t.workers, k)
    {
      if k !in s.ran {
        var i :| 0 <= i < |s.workers| && InFlight(s.workers[i]) && s.workers[i].ticket == k;
        assert InFlight(t.workers[i]) && t.workers[i].ticket == k;
      }
    }
    if s.queue != [] {
      assert t.workers[0] != WWait && t.workers[0] != WExited;
    }
  }

  lemma FreerKeeps(s: State)
    requires Invariant(s) && Enabled(s, FreerStep)
    ensures Invariant(FreerNext(s))
  {
    if s.freer == FBroadcast {
      BroadcastKeeps(s);
    }
  }

  lemma InvariantStep(s: State, a: Action)
    requires Invariant(s) && Enabled(s, a)
    ensures Invariant(Apply(s, a))
  {
    match a
    case WorkerStep(w) => WorkerKeeps(s, w);
    case Spurious(w) => SpuriousKeeps(s, w);
    case Push(c, task) => PushKeeps(s, c, task);
    case ClientStep(c) => ClientKeeps(s, c);
    case Signal(c, woken) => SignalKeeps(s, c, woken);
    case Free =>
    case FreerStep => FreerKeeps(s);
  }

  lemma {:induction false} RunInvariant(s: State, actions: seq<Action>, t: State)
    requires Invariant(s) && Runs(s, actions, t)
    ensures Invariant(t)
    decreases |actions|
  {
    if actions != [] {
      InvariantStep(s, actions[0]);
      RunInvariant(Apply(s, actions[0]), actions[1..], t);
    }
  }

  lemma ReachableInvariant(s: State)
    requires Reachable(s)
    ensures Invariant(s)
  {
    var s0, actions :| Initial(s0) && Runs(s0, actions, s);
    RunInvariant(s0, actions, s);
  }

  // ---------- conservation ----------

  /** In push order, the accepted tasks are the popped ones followed by the queue; what runs is what was pushed. */
  lemma TasksConserved(s: State)
    requires Reachable(s)
    ensures s.popped <= |s.accepted| && s.accepted == s.accepted[..s.popped] + s.queue
    ensures forall i :: 0 <= i < |s.workers| && InFlight(s.workers[i]) ==>
              s.workers[i].ticket < s.popped && s.workers[i].task == s.accepted[s.workers[i].ticket]
    // each popped task has run or is in flight, never both, never twice
    ensures forall t :: 0 <= t < s.popped ==> (t in s.ran <==> !Carried(s.workers, t))
    ensures forall i, k :: 0 <= i < k < |s.ran| ==> s.ran[i] != s.ran[k]
  {
    ReachableInvariant(s);
  }

  /** After free has joined the workers, every accepted task has run exactly once and the queue is empty. */
  lemma AllRun(s: State)
    requires Reachable(s) && s.freer == FDone
    ensures s.queue == [] && s.popped == |s.accepted|
    ensures forall t: nat :: t in s.ran <==> t < |s.accepted|
    ensures forall i, k :: 0 <= i < k < |s.ran| ==> s.ran[i] != s.ran[k]
  {
    ReachableInvariant(s);
    assert s.workers[0] == WExited;
    assert forall t: nat :: !Carried(s.workers, t);
  }

  /** Once stop is set, no push is accepted any more. */
  lemma {:induction false} StopFreezes(s: State, actions: seq<Action>, t: State)
    requires Invariant(s) && s.stop && Runs(s, actions, t)
    ensures t.stop && t.accepted == s.accepted
    decreases |actions|
  {
    if actions != [] {
      InvariantStep(s, actions[0]);
      StopFreezes(Apply(s, actions[0]), actions[1..], t);
    }
  }

  // ---------- no lost wakeup, no deadlock ----------

  /**
   * A non-empty queue is attended by a live worker that does not wait, or a signal is about to
   * reach one; once free has broadcast, no worker waits.
   */
  lemma NoLostWakeup(s: State)
    requires Reachable(s)
    ensures s.queue != [] ==> Attended(s.workers) || Signalling(s.clients)
    ensures s.stop && s.freer != FBroadcast ==> NoneWaiting(s.workers)
  {
    ReachableInvariant(s);
  }

  /** Somebody inside the pool's code can move. */
  ghost predicate CanMove(s: State) {
    || (exists w :: Enabled(s, WorkerStep(w)))
    || (exists c :: Enabled(s, ClientStep(c)))
    || (exists c, w :: Enabled(s, Signal(c, w)))
    || Enabled(s, FreerStep)
  }

  lemma HolderMoves(s: State)
    requires Invariant(s) && s.owner != Nobody
    ensures CanMove(s)
  {
    match s.owner
    case ByWorker(w) => assert Enabled(s, WorkerStep(w));
    case ByFreer => assert Enabled(s, FreerStep);
    case ByClient(c) =>
      if s.clients[c] == PSignal {
        if NoneWaiting(s.workers) {
          assert Enabled(s, Signal(c, 0));
        } else {
          var w :| 0 <= w < |s.workers| && s.workers[w] == WWait;
          assert Enabled(s, Signal(c, w));
        }
      } else {
        assert Enabled(s, ClientStep(c));
      }
  }

  /** The system never deadlocks while there is work, a push under way, or a free under way. */
  lemma NeverStuck(s: State)
    requires Reachable(s)
    requires s.queue != [] || (s.freer != FIdle && s.freer != FDone) ||
             exists c :: 0 <= c < |s.clients| && s.clients[c] != Idle
    ensures CanMove(s)
  {
    ReachableInvariant(s);
    if s.owner != Nobody {
      HolderMoves(s);
    } else if c :| 0 <= c < |s.clients| && s.clients[c] != Idle {
      assert Enabled(s, ClientStep(c));
    } else if s.queue != [] {
      var w :| 0 <= w < |s.workers| && s.workers[w] != WWait && s.workers[w] != WExited;
      assert Enabled(s, WorkerStep(w));
    } else if s.freer.FJoin? && s.freer.next < |s.workers| && s.workers[s.freer.next] != WExited {
      assert Enabled(s, WorkerStep(s.freer.next));
    } else {
      assert Enabled(s, FreerStep);
    }
  }

  // ---------- shutdown ends ----------

  function WorkerRank(w: Worker): nat {
    match w
    case WUnlock(_, _) => 8
    case WRun(_, _) => 7
    case WLock => 6
    case WRelock => 6
    case WTest => 5
    case WPop => 4
    case WStop => 1
    case WWait => 0
    case WExited => 0
  }

  function TotalRank(ws: seq<Worker>): nat {
    if ws == [] then 0 else WorkerRank(ws[0]) + TotalRank(ws[1..])
  }

  lemma {:induction false} RankUpdate(ws: seq<Worker>, w: nat, to: Worker)
    requires w < |ws|
    ensures TotalRank(ws[w := to]) + WorkerRank(ws[w]) == TotalRank(ws) + WorkerRank(to)
  {
    if w == 0 {
      assert ws[w := to][1..] == ws[1..];
    } else {
      assert ws[w := to][1..] == ws[1..][w - 1 := to];
      RankUpdate(ws[1..], w - 1, to);
    }
  }

  function FreerRank(f: Freer, n: nat): nat {
    match f
    case FUnlock => n + 3
    case FJoin(i) => if i <= n then n + 2 - i else 0
    case _ => 0
  }

  /** Queue, in-flight tasks and live workers, and the joins still to be made. */
  function Measure(s: State): nat {
    10 * |s.queue| + TotalRank(s.workers) + FreerRank(s.freer, |s.workers|)
  }

  predicate ShuttingDown(s: State) {
    s.freer == FUnlock || s.freer.FJoin?
  }

  lemma WorkerShrinks(s: State, w: nat)
    requires Invariant(s) && ShuttingDown(s) && Enabled(s, WorkerStep(w))
    ensures Measure(Apply(s, WorkerStep(w))) < Measure(s)
  {
    RankUpdate(s.workers, w, WorkerNext(s, w).workers[w]);
  }

  lemma FreerShrinks(s: State)
    requires Invariant(s) && ShuttingDown(s) && Enabled(s, FreerStep)
    ensures Measure(Apply(s, FreerStep)) < Measure(s)
  {
  }

  lemma ClientsIrrelevant(s: State, a: Action)
    requires Invariant(s) && ShuttingDown(s) && Enabled(s, a)
    ensures a.Push? || a.ClientStep? ==> Measure(Apply(s, a)) == Measure(s)
    ensures !a.Spurious? && !a.Signal?
  {
  }

  /**
   * After the broadcast every step of a worker or of the freeing thread decreases the measure, no
   * step of a client changes it, and nobody can be woken spuriously. With `NeverStuck`: shutdown ends.
   */
  lemma ShutdownProgress(s: State, a: Action)
    requires Reachable(s) && ShuttingDown(s) && Enabled(s, a)
    ensures a.WorkerStep? || a.FreerStep? ==> Measure(Apply(s, a)) < Measure(s)
    ensures a.Push? || a.ClientStep? ==> Measure(Apply(s, a)) == Measure(s)
    ensures !a.Spurious? && !a.Signal?
  {
    ReachableInvariant(s);
    ClientsIrrelevant(s, a);
    if a.WorkerStep? {
      WorkerShrinks(s, a.w);
    } else if a.FreerStep? {
      FreerShrinks(s);
    }
  }

  /** How many steps of workers and of the freeing thread a run holds. */
  function PoolSteps(actions: seq<Action>): nat {
    if actions == [] then 0
    else (if actions[0].WorkerStep? || actions[0].FreerStep? then 1 else 0) + PoolSteps(actions[1..])
  }

  /**
   * Over runs: from the broadcast on, workers and the freeing thread make at most `Measure(s)`
   * steps, whatever the clients do. With `NeverStuck`: shutdown ends.
   */
  lemma {:induction false} ShutdownEnds(s: State, actions: seq<Action>, t: State)
    requires Invariant(s) && (ShuttingDown(s) || s.freer == FDone) && Runs(s, actions, t)
    ensures PoolSteps(actions) + Measure(t) <= Measure(s)
    decreases |actions|
  {
    if actions != [] {
      var a := actions[0];
      InvariantStep(s, a);
      ShutdownStep(s, a);
      ShutdownEnds(Apply(s, a), actions[1..], t);
    }
  }

  lemma ShutdownStep(s: State, a: Action)
    requires Invariant(s) && (ShuttingDown(s) || s.freer == FDone) && Enabled(s, a)
    ensures ShuttingDown(Apply(s, a)) || Apply(s, a).freer == FDone
    ensures Measure(Apply(s, a)) + (if a.WorkerStep? || a.FreerStep? then 1 else 0) <= Measure(s)
  {
    if s.freer == FDone {
      NothingLeft(s, a);
    } else {
      ClientsIrrelevant(s, a);
      if a.WorkerStep? {
        WorkerShrinks(s, a.w);
      } else if a.FreerStep? {
        FreerShrinks(s);
      }
    }
  }

  /** After the joins only clients move. */
  lemma NothingLeft(s: State, a: Action)
    requires Invariant(s) && s.freer == FDone && Enabled(s, a)
    ensures Apply(s, a).freer == FDone && Measure(Apply(s, a)) == Measure(s)
    ensures !a.WorkerStep? && !a.FreerStep?
  {
  }

  // ---------- what push does ----------

  /**
   * A push that finds the pool running appends its task, behind everything accepted so far, and goes
   * on to signal; one that finds it stopped returns without having changed the queue.
   */
  lemma PushOutcome(s: State, c: nat, task: Task)
    requires c < |s.clients| && s.clients[c] == PTest(task)
    ensures Enabled(s, ClientStep(c))
    ensures var s1 := Apply(s, ClientStep(c));
            && Enabled(s1, ClientStep(c))
            && var s2 := Apply(s1, ClientStep(c));
            if s.stop
            then s2.clients[c] == Idle && s2.owner == Nobody && s2.accepted == s.accepted && s2.queue == s.queue
            else s2.clients[c] == PSignal && s2.accepted == s.accepted + [task] && s2.queue == s.queue + [task]
  {
  }

  /**
   * A call of push as the steps of its client show it: its task, how many steps it has made with the
   * mutex, and whether the pool was running at the second of them, the test.
   */
  datatype Call = NoCall | Call(task: Task, steps: nat, running: bool)

  /** Freeing sets stop at its second step. */
  function FreerSteps(actions: seq<Action>): nat {
    if actions == [] then 0
    else FreerSteps(actions[..|actions| - 1]) + if actions[|actions| - 1] == FreerStep then 1 else 0
  }

  predicate StopIsSet(actions: seq<Action>) {
    FreerSteps(actions) >= 2
  }

  /** The latest call of client `c`, read off the actions alone. */
  function LatestCall(actions: seq<Action>, c: nat): Call {
    if actions == [] then NoCall
    else
      var before, a := actions[..|actions| - 1], actions[|actions| - 1];
      var call := LatestCall(before, c);
      if a.Push? && a.c == c then Call(a.task, 0, false)
      else if a == ClientStep(c) && call.Call? then
        Call(call.task, call.steps + 1, if call.steps == 1 then !StopIsSet(before) else call.running)
      else call
  }

  /** The tasks of the calls whose test came before stop was set, in the order of their third steps. */
  function TestedInTime(actions: seq<Action>): seq<Task> {
    if actions == [] then []
    else
      var before, a := actions[..|actions| - 1], actions[|actions| - 1];
      var call := if a.ClientStep? then LatestCall(before, a.c) else NoCall;
      TestedInTime(before) + if call.Call? && call.steps == 2 && call.running then [call.task] else []
  }

  /** Where the client stands is what its call shows. */
  predicate ShowsCall(client: Client, call: Call) {
    match client
    case Idle => true
    case PLock(task) => call.Call? && call.task == task && call.steps == 0
    case PTest(task) => call.Call? && call.task == task && call.steps == 1
    case PAppend(task) => call == Call(task, 2, true)
    case PSignal => call.Call? && call.steps == 3
    case PUnlock => call.Call? && (call.steps == 2 ==> !call.running) && call.steps >= 2
  }

  predicate ShowsFreer(f: Freer, steps: nat) {
    match f
    case FIdle => steps == 0
    case FLock => steps == 0
    case FSetStop => steps == 1
    case _ => steps >= 2
  }

  ghost predicate Shows(t: State, actions: seq<Action>) {
    && t.accepted == TestedInTime(actions)
    && ShowsFreer(t.freer, FreerSteps(actions)) && (t.stop <==> StopIsSet(actions))
    && forall c: nat {:trigger LatestCall(actions, c)} ::
         c < |t.clients| ==> ShowsCall(t.clients[c], LatestCall(actions, c))
  }

  lemma ShowsStep(s: State, actions: seq<Action>, a: Action)
    requires Shows(s, actions) && Enabled(s, a)
    ensures Shows(Apply(s, a), actions + [a])
  {
    var all, t := actions + [a], Apply(s, a);
    assert all[..|all| - 1] == actions && all[|all| - 1] == a;
    forall c: nat | c < |t.clients|
      ensures ShowsCall(t.clients[c], LatestCall(all, c))
    {
      assert ShowsCall(s.clients[c], LatestCall(actions, c));
    }
    if a.ClientStep? {
      assert ShowsCall(s.clients[a.c], LatestCall(actions, a.c));
    }
  }

  lemma {:induction false} RunShows(s: State, done: seq<Action>, actions: seq<Action>, t: State)
    requires Shows(s, done) && Runs(s, actions, t)
    ensures Shows(t, done + actions)
    decreases |actions|
  {
    if actions == [] {
      assert done + actions == done;
    } else {
      ShowsStep(s, done, actions[0]);
      RunShows(Apply(s, actions[0]), done + [actions[0]], actions[1..], t);
      assert done + [actions[0]] + actions[1..] == done + actions;
    }
  }

  /**
   * Over every run: accepted are exactly the tasks of the pushes that tested before stop was set, in
   * the order of their appends. Who did so is read off the actions alone.
   */
  lemma AcceptedExactly(s: State, actions: seq<Action>, t: State)
    requires Initial(s) && Runs(s, actions, t)
    ensures t.accepted == TestedInTime(actions) && (t.stop <==> StopIsSet(actions))
  {
    RunShows(s, [], actions, t);
    assert [] + actions == actions;
  }

  // ---------- nothing else is needed ----------

  lemma {:induction false} RunsOneMore(s: State, actions: seq<Action>, t: State, a: Action)
    requires Runs(s, actions, t) && Enabled(t, a)
    ensures Runs(s, actions + [a], Apply(t, a))
    decreases |actions|
  {
    if actions == [] {
      assert [a][1..] == [] && [] + [a] == [a];
    } else {
      assert (actions + [a])[0] == actions[0] && (actions + [a])[1..] == actions[1..] + [a];
      RunsOneMore(Apply(s, actions[0]), actions[1..], t, a);
    }
  }

  /** While the mutex is free, a push to a running pool goes through by its own steps alone. */
  lemma PushAlone(s: State, c: nat, task: Task, woken: nat) returns (t: State)
    requires c < |s.clients| && s.clients[c] == Idle && s.owner == Nobody && !s.stop && s.freer != FDone
    requires (woken < |s.workers| && s.workers[woken] == WWait) || NoneWaiting(s.workers)
    ensures var step := ClientStep(c);
            Runs(s, [Push(c, task), step, step, step, Signal(c, woken), step], t)
    ensures t.accepted == s.accepted + [task] && t.queue == s.queue + [task]
    ensures |t.clients| == |s.clients| && t.clients[c] == Idle && t.owner == Nobody
  {
    var step := ClientStep(c);
    var s1 := Apply(s, Push(c, task));
    var s2 := Apply(s1, step);
    var s3 := Apply(s2, step);
    var s4, a4 := Apply(s3, step), [Push(c, task), step, step, step];
    ThreeSteps(s, s1, s2, s3, s4, Push(c, task), step);
    assert s4.clients[c] == PSignal && s4.workers == s.workers;
    var s5 := Apply(s4, Signal(c, woken));
    assert s5.clients[c] == PUnlock;
    t := Apply(s5, step);
    RunsOneMore(s, a4, s4, Signal(c, woken));
    RunsOneMore(s, a4 + [Signal(c, woken)], s5, step);
    assert a4 + [Signal(c, woken)] + [step] == [Push(c, task), step, step, step, Signal(c, woken), step];
  }

  lemma ThreeSteps(s: State, s1: State, s2: State, s3: State, s4: State, first: Action, step: Action)
    requires Enabled(s, first) && s1 == Apply(s, first) && Enabled(s1, step) && s2 == Apply(s1, step)
    requires Enabled(s2, step) && s3 == Apply(s2, step) && Enabled(s3, step) && s4 == Apply(s3, step)
    ensures Runs(s, [first, step, step, step], s4)
  {
    var one, none: seq<Action> := [step], [];
    var two, three := [step, step], [step, step, step];
    assert one[1..] == none && two[1..] == one && three[1..] == two && [first, step, step, step][1..] == three;
    assert Runs(s4, none, s4);
    assert Runs(s3, one, s4);
    assert Runs(s2, two, s4);
    assert Runs(s1, three, s4);
  }

  /** While the mutex is free and there is work, a worker takes the oldest task and runs it by its own steps alone. */
  lemma WorkerAlone(s: State, w: nat) returns (t: State)
    requires w < |s.workers| && s.workers[w] == WLock && s.owner == Nobody && s.queue != []
    ensures var step := WorkerStep(w);
            Runs(s, [step, step, step, step, step], t)
    ensures t.queue == s.queue[1..] && t.popped == s.popped + 1 && t.ran == s.ran + [s.popped]
    ensures |t.workers| == |s.workers| && t.workers[w] == WLock && t.owner == Nobody
  {
    var step := WorkerStep(w);
    var s1 := Apply(s, step);
    var s2 := Apply(s1, step);
    var s3 := Apply(s2, step);
    var s4 := Apply(s3, step);
    ThreeSteps(s, s1, s2, s3, s4, step, step);
    t := Apply(s4, step);
    RunsOneMore(s, [step, step, step, step], s4, step);
    assert [step, step, step, step] + [step] == [step, step, step, step, step];
  }

  /** A waiting worker can be woken at any time, for no reason, and then takes the mutex again before it tests. */
  lemma WokenAnytime(s: State, w: nat)
    requires w < |s.workers| && s.workers[w] == WWait
    ensures Enabled(s, Spurious(w))
    ensures Apply(s, Spurious(w)) == s.(workers := s.workers[w := WRelock])
    ensures s.owner == Nobody ==> Enabled(Apply(s, Spurious(w)), WorkerStep(w))
  {
  }

  /** While the mutex is free, free sets stop, wakes every waiting worker and goes on to the joins by its own steps. */
  lemma FreeAlone(s: State) returns (t: State)
    requires s.freer == FIdle && s.owner == Nobody
    ensures Runs(s, [Free, FreerStep, FreerStep, FreerStep, FreerStep], t)
    ensures t.stop && t.owner == Nobody && t.freer == FJoin(0) && t.queue == s.queue
    ensures |t.workers| == |s.workers| && NoneWaiting(t.workers)
    ensures forall i :: 0 <= i < |s.workers| ==> t.workers[i] == if s.workers[i] == WWait then WRelock else s.workers[i]
  {
    var s1 := Apply(s, Free);
    var s2 := Apply(s1, FreerStep);
    var s3 := Apply(s2, FreerStep);
    var s4 := Apply(s3, FreerStep);
    ThreeSteps(s, s1, s2, s3, s4, Free, FreerStep);
    t := Apply(s4, FreerStep);
    RunsOneMore(s, [Free, FreerStep, FreerStep, FreerStep], s4, FreerStep);
    assert [Free, FreerStep, FreerStep, FreerStep] + [FreerStep] == [Free, FreerStep, FreerStep, FreerStep, FreerStep];
  }
}
