/**
 * The pthread fallback of src/coroutine.c as a step system: one resumer, one coroutine thread, a
 * mutex, and two condition variables that may wake their waiter spuriously.
 */
module Coroutine {

  /** Where the resumer is: in its own code, in resume, or in free. */
  datatype Resumer =
    | Outside
    | RLock | RLocked | RCheckReady | RWaitReady | RRelockReady
    | RSetRun | RCheckYield | RWaitYield | RRelockYield | RUnlock
    | FLock | FSet | FUnlock | FJoin | Freed

  /** Where the coroutine's thread is: starting, in the callback, in yield, or ending. */
  datatype Thread =
    | NotCreated
    | CLock | CReady | CCheckRun | CWaitRun | CRelockRun | CUnlock
    | Code
    | YLock | YSet | YCheck | YWait | YRelock | YLeave
    | DLock | DSet | DUnlock
    | Dead

  datatype Owner = Nobody | ByResumer | ByThread

  /** The fields of the coroutine; `resumes` and `segments` count resume calls and finished segments. */
  datatype State = State(
    r: Resumer, c: Thread, owner: Owner,
    isDone: bool, shouldRun: bool, isStarted: bool, isExiting: bool, isReady: bool,
    resumes: nat, segments: nat)

  const Start := State(Outside, NotCreated, Nobody, false, false, false, false, false, 0, 0)

  datatype Action = Resume | Free | ResumerStep | Yield | Return | ThreadStep | WakeResumer | WakeThread

  // ---------- condition variables ----------

  /** A wakeup on `cond_yield`: the resumer goes on to take the mutex again. */
  function WokenResumer(r: Resumer): Resumer {
    if r == RWaitReady then RRelockReady else if r == RWaitYield then RRelockYield else r
  }

  /** A wakeup on `cond_resume`. */
  function WokenThread(c: Thread): Thread {
    if c == CWaitRun then CRelockRun else if c == YWait then YRelock else c
  }

  // ---------- steps ----------

  predicate Enabled(s: State, a: Action) {
    match a
    case Resume => s.r == Outside
    case Free => s.r == Outside
    case ResumerStep =>
      (match s.r
       case RLock => s.owner == Nobody
       case RRelockReady => s.owner == Nobody
       case RRelockYield => s.owner == Nobody
       case FLock => s.owner == Nobody
       case FJoin => s.c == Dead
       case RLocked => true
       case RCheckReady => true
       case RSetRun => true
       case RCheckYield => true
       case RUnlock => true
       case FSet => true
       case FUnlock => true
       case _ => false)
    case Yield => s.c == Code
    case Return => s.c == Code
    case ThreadStep =>
      (match s.c
       case CLock => s.owner == Nobody
       case CRelockRun => s.owner == Nobody
       case YLock => s.owner == Nobody
       case YRelock => s.owner == Nobody
       case DLock => s.owner == Nobody
       case CReady => true
       case CCheckRun => true
       case CUnlock => true
       case YSet => true
       case YCheck => true
       case YLeave => true
       case DSet => true
       case DUnlock => true
       case _ => false)
    case WakeResumer => s.r == RWaitReady || s.r == RWaitYield
    case WakeThread => s.c == CWaitRun || s.c == YWait
  }

  function ResumerNext(s: State): State {
    match s.r
    case RLock => s.(r := RLocked, owner := ByResumer)
    case RLocked =>
      if !s.isStarted then s.(r := RCheckReady, c := CLock, isStarted := true) else s.(r := RSetRun)
    case RCheckReady => if !s.isReady then s.(r := RWaitReady, owner := Nobody) else s.(r := RSetRun)
    case RRelockReady => s.(r := RCheckReady, owner := ByResumer)
    case RSetRun => s.(r := RCheckYield, shouldRun := true, c := WokenThread(s.c))
    case RCheckYield =>
      if s.shouldRun && !s.isDone then s.(r := RWaitYield, owner := Nobody) else s.(r := RUnlock)
    case RRelockYield => s.(r := RCheckYield, owner := ByResumer)
    case RUnlock => s.(r := Outside, owner := Nobody)
    case FLock => s.(r := FSet, owner := ByResumer)
    case FSet => s.(r := FUnlock, shouldRun := true, isExiting := true, c := WokenThread(s.c))
    case FUnlock => s.(r := FJoin, owner := Nobody)
    case FJoin => s.(r := Freed)
    case _ => s
  }

  function ThreadNext(s: State): State {
    match s.c
    case CLock => s.(c := CReady, owner := ByThread)
    case CReady => s.(c := CCheckRun, isReady := true, r := WokenResumer(s.r))
    case CCheckRun => if !s.shouldRun then s.(c := CWaitRun, owner := Nobody) else s.(c := CUnlock)
    case CRelockRun => s.(c := CCheckRun, owner := ByThread)
    case CUnlock => s.(c := Code, owner := Nobody)
    case YLock => s.(c := YSet, owner := ByThread)
    case YSet => s.(c := YCheck, shouldRun := false, r := WokenResumer(s.r), segments := s.segments + 1)
    case YCheck =>
      if !s.shouldRun && !s.isExiting then s.(c := YWait, owner := Nobody) else s.(c := YLeave)
    case YRelock => s.(c := YCheck, owner := ByThread)
    case YLeave => s.(c := if s.isExiting then Dead else Code, owner := Nobody)
    case DLock => s.(c := DSet, owner := ByThread)
    case DSet =>
      s.(c := DUnlock, isDone := true, shouldRun := false, r := WokenResumer(s.r), segments := s.segments + 1)
    case DUnlock => s.(c := Dead, owner := Nobody)
    case _ => s
  }

  function Apply(s: State, a: Action): State
    requires Enabled(s, a)
  {
    match a
    case Resume => if s.isDone then s else s.(r := RLock, resumes := s.resumes + 1)
    case Free =>
      if s.isStarted && !s.isDone then s.(r := FLock)
      else if s.isStarted then s.(r := FJoin)
      else s.(r := Freed)
    case ResumerStep => ResumerNext(s)
    case Yield => s.(c := YLock)
    case Return => s.(c := DLock)
    case ThreadStep => ThreadNext(s)
    case WakeResumer => s.(r := WokenResumer(s.r))
    case WakeThread => s.(c := WokenThread(s.c))
  }

  ghost predicate Runs(s: State, actions: seq<Action>, t: State)
    decreases |actions|
  {
    if actions == [] then s == t
    else Enabled(s, actions[0]) && Runs(Apply(s, actions[0]), actions[1..], t)
  }

  // ---------- invariant ----------

  predicate ResumerHolds(r: Resumer) {
    r == RLocked || r == RCheckReady || r == RSetRun || r == RCheckYield || r == RUnlock || r == FSet || r == FUnlock
  }

  predicate ThreadHolds(c: Thread) {
    || c == CReady || c == CCheckRun || c == CUnlock
    || c == YSet || c == YCheck || c == YLeave || c == DSet || c == DUnlock
  }

  /** The resumer has handed over and has not seen the end of the segment. */
  predicate HandedOver(r: Resumer) {
    r == RCheckYield || r == RWaitYield || r == RRelockYield
  }

  /** The resumer is back in control, or about to hand over again. */
  predicate InControl(s: State) {
    || (s.segments == s.resumes &&
        (s.r == RCheckYield || s.r == RRelockYield || s.r == RUnlock || s.r == Outside || s.r == FLock || s.r == FSet))
    || (s.segments + 1 == s.resumes && (s.r == RLock || s.r == RLocked || s.r == RSetRun))
  }

  /** The resumer waits for the coroutine's segment to end. */
  predicate Waits(s: State) {
    s.shouldRun && !s.isExiting && HandedOver(s.r) && s.segments + 1 == s.resumes
  }

  /** What each place of the thread says about the flags and the resumer. */
  predicate Agrees(s: State) {
    match s.c
    case NotCreated =>
      && !s.isStarted && !s.isReady && !s.isDone && !s.shouldRun && !s.isExiting && s.segments == 0
      && (((s.r == Outside || s.r == Freed) && s.resumes == 0) || ((s.r == RLock || s.r == RLocked) && s.resumes == 1))
    case CLock => Starting(s) && !s.isReady && (s.r == RCheckReady || s.r == RWaitReady || s.r == RRelockReady)
    case CReady => Starting(s) && !s.isReady && (s.r == RWaitReady || s.r == RRelockReady)
    case CCheckRun => Started(s)
    case CWaitRun => Started(s) && !s.shouldRun
    case CRelockRun => Started(s)
    case CUnlock => s.isStarted && s.isReady && !s.isDone && Waits(s)
    case Code => s.isStarted && s.isReady && !s.isDone && Waits(s)
    case YLock => s.isStarted && s.isReady && !s.isDone && Waits(s)
    case YSet => s.isStarted && s.isReady && !s.isDone && Waits(s)
    case DLock => s.isStarted && s.isReady && !s.isDone && Waits(s)
    case DSet => s.isStarted && s.isReady && !s.isDone && Waits(s)
    case YCheck => Parked(s)
    case YWait => Parked(s) && !s.shouldRun && !s.isExiting
    case YRelock => Parked(s)
    case YLeave => Parked(s) && (s.shouldRun || s.isExiting)
    case DUnlock => Finished(s)
    case Dead =>
      || Finished(s)
      || (s.isStarted && s.isExiting && s.segments == s.resumes && (s.r == FJoin || s.r == Freed))
  }

  predicate Starting(s: State) {
    s.isStarted && !s.isDone && !s.shouldRun && !s.isExiting && s.resumes == 1 && s.segments == 0
  }

  predicate Started(s: State) {
    && s.isStarted && s.isReady && !s.isDone && !s.isExiting && s.resumes == 1 && s.segments == 0
    && if s.shouldRun then HandedOver(s.r) else s.r == RCheckReady || s.r == RRelockReady || s.r == RSetRun
  }

  predicate Parked(s: State) {
    && s.isStarted && s.isReady && !s.isDone
    && (Waits(s) || (!s.shouldRun && !s.isExiting && InControl(s)) ||
        (s.shouldRun && s.isExiting && s.segments == s.resumes && (s.r == FUnlock || s.r == FJoin)))
  }

  predicate Finished(s: State) {
    && s.isStarted && s.isDone && !s.shouldRun && !s.isExiting && s.segments == s.resumes
    && (s.r == RCheckYield || s.r == RRelockYield || s.r == RUnlock || s.r == Outside || s.r == FJoin ||
        (s.r == Freed && s.c == Dead))
  }

  predicate Invariant(s: State) {
    && (s.owner == ByResumer <==> ResumerHolds(s.r))
    && (s.owner == ByThread <==> ThreadHolds(s.c))
    && Agrees(s)
  }

  lemma LockKeeps(s: State)
    requires Invariant(s) && Enabled(s, ResumerStep)
    requires s.r == RLock || s.r == RRelockReady || s.r == RRelockYield || s.r == FLock
    ensures Invariant(ResumerNext(s))
  {
  }

  lemma StartKeeps(s: State)
    requires Invariant(s) && Enabled(s, ResumerStep) && (s.r == RLocked || s.r == RCheckReady)
    ensures Invariant(ResumerNext(s))
  {
  }

  lemma HandOverKeeps(s: State)
    requires Invariant(s) && Enabled(s, ResumerStep) && (s.r == RSetRun || s.r == RCheckYield)
    ensures Invariant(ResumerNext(s))
  {
  }

  lemma ReleaseKeeps(s: State)
    requires Invariant(s) && Enabled(s, ResumerStep) && (s.r == RUnlock || s.r == FUnlock)
    ensures Invariant(ResumerNext(s))
  {
  }

  lemma FreeKeeps(s: State)
    requires Invariant(s) && Enabled(s, ResumerStep) && (s.r == FSet || s.r == FJoin)
    ensures Invariant(ResumerNext(s))
  {
  }

  lemma ResumerKeeps(s: State)
    requires Invariant(s) && Enabled(s, ResumerStep)
    ensures Invariant(ResumerNext(s))
  {
    if s.r == RLock || s.r == RRelockReady || s.r == RRelockYield || s.r == FLock {
      LockKeeps(s);
    } else if s.r == RLocked || s.r == RCheckReady {
      StartKeeps(s);
    } else if s.r == RSetRun || s.r == RCheckYield {
      HandOverKeeps(s);
    } else if s.r == RUnlock || s.r == FUnlock {
      ReleaseKeeps(s);
    } else {
      FreeKeeps(s);
    }
  }

  lemma ThreadKeeps(s: State)
    requires Invariant(s) && Enabled(s, ThreadStep)
    ensures Invariant(ThreadNext(s))
  {
  }

  lemma CallKeeps(s: State, a: Action)
    requires Invariant(s) && Enabled(s, a) && (a == Resume || a == Free)
    ensures Invariant(Apply(s, a))
  {
  }

  lemma OwnStepKeeps(s: State, a: Action)
    requires Invariant(s) && Enabled(s, a) && (a == Yield || a == Return)
    ensures Invariant(Apply(s, a))
  {
  }

  lemma WakeResumerKeeps(s: State)
    requires Invariant(s) && Enabled(s, WakeResumer)
    ensures Invariant(Apply(s, WakeResumer))
  {
  }

  lemma WakeThreadKeeps(s: State)
    requires Invariant(s) && Enabled(s, WakeThread)
    ensures Invariant(Apply(s, WakeThread))
  {
  }

  lemma InvariantStep(s: State, a: Action)
    requires Invariant(s) && Enabled(s, a)
    ensures Invariant(Apply(s, a))
  {
    if a == ResumerStep {
      ResumerKeeps(s);
    } else if a == ThreadStep {
      ThreadKeeps(s);
    } else if a == Resume || a == Free {
      CallKeeps(s, a);
    } else if a == Yield || a == Return {
      OwnStepKeeps(s, a);
    } else if a == WakeResumer {
      WakeResumerKeeps(s);
    } else {
      WakeThreadKeeps(s);
    }
  }

  lemma {:induction false} RunInvariant(s: State, actions: seq<Action>, t: State)
    requires Invariant(s) && Runs(s, actions, t)
    ensures Invariant(t)
    decreases |actions|
  {
    if actions != [] {
      InvariantStep(s, actions[0]);
      RunInvariant(Apply(s, actions[0]), actions[1..], t);
    }
  }

  ghost predicate Reachable(s: State) {
    exists actions :: Runs(Start, actions, s)
  }

  lemma ReachableInvariant(s: State)
    requires Reachable(s)
    ensures Invariant(s)
  {
    var actions :| Runs(Start, actions, s);
    RunInvariant(Start, actions, s);
  }

  // ---------- what the handoff guarantees ----------

  /** The coroutine's code and the resumer's code never run at once, and the mutex has one holder. */
  lemma NeverBoth(s: State)
    requires Reachable(s)
    ensures !(s.c == Code && (s.r == Outside || s.r == Freed))
    ensures !(ResumerHolds(s.r) && ThreadHolds(s.c))
  {
    ReachableInvariant(s);
  }

  /** The thread has parked itself in yield, or its callback has returned. */
  predicate AtRest(c: Thread) {
    c == NotCreated || c == YCheck || c == YWait || c == YRelock || c == DUnlock || c == Dead
  }

  /**
   * Each resume returns exactly when the coroutine has next yielded or finished: the wait is left
   * if and only if the segment of this call has ended, and back in its own code the resumer finds
   * one ended segment for each call and the thread at rest.
   */
  lemma ResumeReturns(s: State)
    requires Reachable(s)
    ensures s.r == RCheckYield ==> (ResumerNext(s).r == RUnlock <==> s.segments == s.resumes)
    ensures s.r == RUnlock || s.r == Outside ==> s.segments == s.resumes && AtRest(s.c)
    ensures s.segments == s.resumes || s.segments + 1 == s.resumes
  {
    ReachableInvariant(s);
    OneSegment(s);
  }

  lemma OneSegment(s: State)
    requires Invariant(s)
    ensures s.segments == s.resumes || s.segments + 1 == s.resumes
    ensures s.r == RUnlock || s.r == Outside ==> s.segments == s.resumes
  {
  }

  /** How many steps a thread that free waits for still makes. */
  function StepsToDeath(c: Thread): nat {
    match c
    case YRelock => 3
    case YCheck => 2
    case YLeave => 1
    case DUnlock => 1
    case _ => 0
  }

  /** Free's join never waits for a parked coroutine: the thread ends within three steps of its own. */
  lemma JoinEnds(s: State)
    requires Reachable(s) && s.r == FJoin
    ensures s.c == Dead ||
            (Enabled(s, ThreadStep) && ThreadNext(s).r == FJoin && StepsToDeath(ThreadNext(s).c) < StepsToDeath(s.c))
    ensures !Enabled(s, WakeThread) && !Enabled(s, Yield)
  {
    ReachableInvariant(s);
    JoinedThread(s);
  }

  /** The thread is dead, or on its way out. */
  lemma JoinedThread(s: State)
    requires Invariant(s) && s.r == FJoin
    ensures s.c == YRelock || s.c == YCheck || s.c == YLeave || s.c == DUnlock || s.c == Dead
    ensures s.owner != ByResumer && (s.c == YCheck ==> s.isExiting || s.shouldRun)
    ensures s.c == YRelock ==> s.owner == Nobody
  {
  }

  /** No deadlock: inside resume or free, something can move, or the coroutine's own code is running. */
  lemma NeverStuck(s: State)
    requires Reachable(s) && s.r != Outside && s.r != Freed
    ensures Enabled(s, ResumerStep) || Enabled(s, ThreadStep) || s.c == Code
  {
    ReachableInvariant(s);
    SomeoneMoves(s);
  }

  lemma SomeoneMoves(s: State)
    requires Invariant(s) && s.r != Outside && s.r != Freed
    ensures Enabled(s, ResumerStep) || Enabled(s, ThreadStep) || s.c == Code
  {
  }

  function ResumerRank(r: Resumer): nat {
    match r
    case RLock => 100
    case RLocked => 95
    case RRelockReady => 85
    case RCheckReady => 80
    case RWaitReady => 70
    case RSetRun => 60
    case RRelockYield => 35
    case RCheckYield => 30
    case RWaitYield => 10
    case RUnlock => 5
    case FLock => 100
    case FSet => 95
    case FUnlock => 50
    case FJoin => 10
    case _ => 0
  }

  function ThreadRank(c: Thread): nat {
    match c
    case NotCreated => 66
    case CLock => 65
    case CReady => 60
    case CRelockRun => 35
    case CCheckRun => 30
    case CWaitRun => 20
    case CUnlock => 10
    case YLock => 65
    case YSet => 60
    case YRelock => 35
    case YCheck => 30
    case YWait => 20
    case YLeave => 10
    case DLock => 65
    case DSet => 60
    case DUnlock => 10
    case _ => 0
  }

  function Rank(s: State): nat {
    ResumerRank(s.r) + ThreadRank(s.c)
  }

  /**
   * Every step that is neither user code nor a spurious wakeup makes progress. With `NeverStuck`:
   * absent spurious wakeups, resume returns or the coroutine's code runs, and free ends, in a
   * bounded number of steps.
   */
  lemma StepsProgress(s: State, a: Action)
    requires Reachable(s) && Enabled(s, a) && IsLibraryStep(a)
    ensures Rank(Apply(s, a)) < Rank(s)
  {
    ReachableInvariant(s);
    OneStepProgress(s, a);
  }

  lemma OneStepProgress(s: State, a: Action)
    requires Invariant(s) && Enabled(s, a) && IsLibraryStep(a)
    ensures Rank(Apply(s, a)) < Rank(s)
  {
    if a == ResumerStep {
      ResumerProgress(s);
    } else {
      ThreadProgress(s);
    }
  }

  predicate IsLibraryStep(a: Action) {
    a == ResumerStep || a == ThreadStep
  }

  /**
   * Over runs: as long as nobody's own code runs and nobody is woken spuriously, at most `Rank(s)`
   * more steps are possible. With `NeverStuck`: resume and free end.
   */
  lemma {:induction false} LibraryRunsEnd(s: State, actions: seq<Action>, t: State)
    requires Invariant(s) && Runs(s, actions, t) && forall a <- actions :: IsLibraryStep(a)
    ensures |actions| + Rank(t) <= Rank(s)
    decreases |actions|
  {
    if actions != [] {
      var a, more := actions[0], actions[1..];
      assert a in actions && forall b <- more :: b in actions;
      InvariantStep(s, a);
      OneStepProgress(s, a);
      LibraryRunsEnd(Apply(s, a), more, t);
    }
  }

  lemma ResumerProgress(s: State)
    requires Enabled(s, ResumerStep)
    requires s.r == RLocked && !s.isStarted ==> s.c == NotCreated
    ensures Rank(ResumerNext(s)) < Rank(s)
  {
  }

  lemma WakeCost(r: Resumer)
    ensures ResumerRank(WokenResumer(r)) <= ResumerRank(r) + 25
  {
  }

  /** The thread's own rank falls, and by more than a wakeup costs where it wakes the resumer. */
  ghost predicate RankDrops(s: State) {
    var t := ThreadNext(s);
    && (t.r == s.r || t.r == WokenResumer(s.r))
    && ThreadRank(t.c) + (if t.r == s.r then 0 else 25) < ThreadRank(s.c)
  }

  lemma StartDrops(s: State)
    requires Enabled(s, ThreadStep)
    requires s.c == CLock || s.c == CReady || s.c == CCheckRun || s.c == CRelockRun || s.c == CUnlock
    ensures RankDrops(s)
  {
  }

  lemma YieldDrops(s: State)
    requires Enabled(s, ThreadStep)
    requires s.c == YLock || s.c == YSet || s.c == YCheck || s.c == YRelock || s.c == YLeave
    ensures RankDrops(s)
  {
  }

  lemma EndDrops(s: State)
    requires Enabled(s, ThreadStep)
    requires s.c == DLock || s.c == DSet || s.c == DUnlock
    ensures RankDrops(s)
  {
  }

  lemma ThreadProgress(s: State)
    requires Enabled(s, ThreadStep)
    ensures Rank(ThreadNext(s)) < Rank(s)
  {
    WakeCost(s.r);
    if s.c == DLock || s.c == DSet || s.c == DUnlock {
      EndDrops(s);
    } else if s.c == YLock || s.c == YSet || s.c == YCheck || s.c == YRelock || s.c == YLeave {
      YieldDrops(s);
    } else {
      StartDrops(s);
    }
  }

  // ---------- what is counted ----------

  /** How often `a` occurs. */
  function Times(actions: seq<Action>, a: Action): nat {
    if actions == [] then 0 else (if actions[0] == a then 1 else 0) + Times(actions[1..], a)
  }

  /** A segment that has left the coroutine's code and is not counted yet. */
  function Ending(c: Thread): nat {
    if c == YLock || c == YSet || c == DLock || c == DSet then 1 else 0
  }

  /**
   * Segments are counted for nothing but yields and returns of the coroutine's own code, one for each;
   * calls of resume are counted until the coroutine is done.
   */
  lemma {:induction false} SegmentsCounted(s: State, actions: seq<Action>, t: State)
    requires Invariant(s) && Runs(s, actions, t)
    ensures t.segments + Ending(t.c) ==
            s.segments + Ending(s.c) + Times(actions, Yield) + Times(actions, Return)
    ensures t.resumes <= s.resumes + Times(actions, Resume)
    ensures !t.isDone ==> t.resumes == s.resumes + Times(actions, Resume)
    decreases |actions|
  {
    if actions != [] {
      var a, u := actions[0], Apply(s, actions[0]);
      InvariantStep(s, a);
      SegmentsCounted(u, actions[1..], t);
      SegmentStep(s, a);
      if !t.isDone {
        DoneStays(u, actions[1..], t);
      }
    }
  }

  lemma SegmentStep(s: State, a: Action)
    requires Enabled(s, a) && (s.r == RLocked && !s.isStarted ==> s.c == NotCreated)
    ensures var t := Apply(s, a);
            && t.segments + Ending(t.c) == s.segments + Ending(s.c) + (if a == Yield || a == Return then 1 else 0)
            && t.resumes == s.resumes + (if a == Resume && !s.isDone then 1 else 0)
            && (s.isDone ==> t.isDone)
  {
    if a == ResumerStep {
      ResumerCounts(s);
    } else if a == ThreadStep {
      ThreadCounts(s);
    }
  }

  lemma WokenEnds(c: Thread)
    ensures Ending(WokenThread(c)) == Ending(c)
  {
  }

  lemma ResumerCounts(s: State)
    requires Enabled(s, ResumerStep) && (s.r == RLocked && !s.isStarted ==> s.c == NotCreated)
    ensures var t := ResumerNext(s);
            Ending(t.c) == Ending(s.c) && t.segments == s.segments && t.resumes == s.resumes && t.isDone == s.isDone
  {
    WokenEnds(s.c);
  }

  lemma ThreadCounts(s: State)
    requires Enabled(s, ThreadStep)
    ensures var t := ThreadNext(s);
            && t.segments + Ending(t.c) == s.segments + Ending(s.c) && t.resumes == s.resumes
            && (s.isDone ==> t.isDone)
  {
    if s.c == YSet || s.c == DSet {
      assert ThreadNext(s).segments == s.segments + 1;
    } else {
      OtherThreadSteps(s);
    }
  }

  lemma OtherThreadSteps(s: State)
    requires s.c != YSet && s.c != DSet
    ensures var t := ThreadNext(s);
            && t.segments == s.segments && t.resumes == s.resumes && t.isDone == s.isDone
            && Ending(t.c) == Ending(s.c)
  {
  }

  lemma {:induction false} DoneStays(s: State, actions: seq<Action>, t: State)
    requires Invariant(s) && Runs(s, actions, t)
    ensures s.isDone ==> t.isDone
    decreases |actions|
  {
    if actions != [] {
      InvariantStep(s, actions[0]);
      SegmentStep(s, actions[0]);
      DoneStays(Apply(s, actions[0]), actions[1..], t);
    }
  }

  // ---------- a first segment ----------

  lemma {:induction false} RunsOneMore(s: State, actions: seq<Action>, t: State, a: Action)
    requires Runs(s, actions, t) && Enabled(t, a)
    ensures Runs(s, actions + [a], Apply(t, a))
    decreases |actions|
  {
    if actions == [] {
      assert [a][1..] == [] && [] + [a] == [a];
    } else {
      assert (actions + [a])[0] == actions[0] && (actions + [a])[1..] == actions[1..] + [a];
      RunsOneMore(Apply(s, actions[0]), actions[1..], t, a);
    }
  }

  lemma ReachableStep(s: State, a: Action) returns (t: State)
    requires Reachable(s) && Enabled(s, a)
    ensures Reachable(t) && t == Apply(s, a)
  {
    var actions :| Runs(Start, actions, s);
    RunsOneMore(Start, actions, s, a);
    t := Apply(s, a);
  }

  /** The first call of resume creates the thread and waits until it is ready. */
  lemma ThreadReady() returns (s: State)
    ensures Reachable(s)
    ensures s == State(RRelockReady, CWaitRun, Nobody, false, false, true, false, true, 1, 0)
  {
    assert Runs(Start, [], Start);
    s := ReachableStep(Start, Resume);
    s := ReachableStep(s, ResumerStep);
    s := ReachableStep(s, ResumerStep);
    s := ReachableStep(s, ResumerStep);
    s := ReachableStep(s, ThreadStep);
    s := ReachableStep(s, ThreadStep);
    s := ReachableStep(s, ThreadStep);
  }

  /** The first call of resume reaches the coroutine's code. */
  lemma CodeReached() returns (s: State)
    ensures Reachable(s)
    ensures s == State(RWaitYield, Code, Nobody, false, true, true, false, true, 1, 0)
  {
    s := ThreadReady();
    s := ReachableStep(s, ResumerStep);
    s := ReachableStep(s, ResumerStep);
    s := ReachableStep(s, ResumerStep);
    s := ReachableStep(s, ResumerStep);
    s := ReachableStep(s, ThreadStep);
    s := ReachableStep(s, ThreadStep);
    s := ReachableStep(s, ThreadStep);
  }

  /** A yield there brings resume back to its caller, with the coroutine parked. */
  lemma FirstYield() returns (s: State)
    ensures Reachable(s)
    ensures s == State(Outside, YWait, Nobody, false, false, true, false, true, 1, 1)
  {
    s := CodeReached();
    s := ReachableStep(s, Yield);
    s := ReachableStep(s, ThreadStep);
    s := ReachableStep(s, ThreadStep);
    s := ReachableStep(s, ThreadStep);
    s := ReachableStep(s, ResumerStep);
    s := ReachableStep(s, ResumerStep);
    s := ReachableStep(s, ResumerStep);
  }

  /** A return there does too, and then the coroutine is done. */
  lemma FirstReturn() returns (s: State)
    ensures Reachable(s)
    ensures s == State(Outside, Dead, Nobody, true, false, true, false, true, 1, 1)
  {
    s := CodeReached();
    s := ReachableStep(s, Return);
    s := ReachableStep(s, ThreadStep);
    s := ReachableStep(s, ThreadStep);
    s := ReachableStep(s, ThreadStep);
    s := ReachableStep(s, ResumerStep);
    s := ReachableStep(s, ResumerStep);
    s := ReachableStep(s, ResumerStep);
  }

  /** Free unwinds a coroutine that is parked in a yield, and joins its thread. */
  lemma FreedWhileParked() returns (s: State)
    ensures Reachable(s)
    ensures s == State(Freed, Dead, Nobody, false, true, true, true, true, 1, 1)
  {
    s := FirstYield();
    s := ReachableStep(s, Free);
    s := ReachableStep(s, ResumerStep);
    s := ReachableStep(s, ResumerStep);
    s := ReachableStep(s, ResumerStep);
    s := ReachableStep(s, ThreadStep);
    s := ReachableStep(s, ThreadStep);
    s := ReachableStep(s, ThreadStep);
    s := ReachableStep(s, ResumerStep);
  }

  /** Either side can be woken at any time while it waits, and then takes the mutex again before it tests. */
  lemma WokenAnytime(s: State)
    ensures s.r == RWaitReady ==> Enabled(s, WakeResumer) && Apply(s, WakeResumer) == s.(r := RRelockReady)
    ensures s.r == RWaitYield ==> Enabled(s, WakeResumer) && Apply(s, WakeResumer) == s.(r := RRelockYield)
    ensures s.c == CWaitRun ==> Enabled(s, WakeThread) && Apply(s, WakeThread) == s.(c := CRelockRun)
    ensures s.c == YWait ==> Enabled(s, WakeThread) && Apply(s, WakeThread) == s.(c := YRelock)
  {
  }
}
