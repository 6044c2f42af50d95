// All runs of a thread pool with any number of workers, submitters and destroyers.

module PoolRuns {
  import opened Machines
  import opened Sums
  import opened PoolSections

  /** Where a worker is while the mutex is free. `timedOut` is its timeout flag. */
  datatype Worker =
    | Ready                                // about to lock at the head of its loop
    | Asleep                               // in the timed wait
    | Woken(timedOut: bool)                // wait over, mutex not yet back
    | Running(task: nat, timedOut: bool)   // running a task, mutex not held
    | Ran(timedOut: bool)                  // task finished, about to lock again
    | Exited

  datatype Destroyer = Outside | Checked | Waiting | Awake | Returned

  /** `submitted` and `started` record the order in which tasks entered and left the queue. */
  datatype State = State(
    pool: Pool, workers: seq<Worker>, destroyers: seq<Destroyer>,
    submitted: seq<nat>, started: seq<nat>, finished: set<nat>)

  function Initial(maxThreads: int, destroyers: nat): State {
    State(EMPTY.(maxThreads := maxThreads), [], seq(destroyers, _ => Outside), [], [], {})
  }

  /** Whom a signal on the condition wakes. */
  datatype Waiter = NoOne | W(i: nat) | D(j: nat)

  /** One event is one critical section, or something that happens outside the mutex. */
  datatype Event =
    | Submit(task: nat, woken: Waiter)
    | EnterLoop(i: nat, woken: Waiter)
    | Timeout(i: nat)
    | SpuriousWorker(i: nat)
    | Relock(i: nat, woken: Waiter)
    | RunTask(i: nat)
    | Finish(i: nat, woken: Waiter)
    | CheckQuit(j: nat)
    | Destroy(j: nat)
    | SpuriousDestroyer(j: nat)
    | DestroyerRelock(j: nat)

  predicate IsAsleep(s: State, i: nat) { i < |s.workers| && s.workers[i].Asleep? }

  predicate IsWaiting(s: State, j: nat) { j < |s.destroyers| && s.destroyers[j].Waiting? }

  predicate IsTimedOut(s: State, i: nat) { i < |s.workers| && s.workers[i] == Woken(true) }

  /** A signal wakes one waiter of the condition, if there is one; a worker whose wait has timed
      out but that has not locked again may take it for nothing. */
  ghost function Signalled(s: State, w: Waiter): Option<State> {
    match w
    case NoOne =>
      if ((exists i :: IsAsleep(s, i)) || (exists j :: IsWaiting(s, j))) && !(exists i :: IsTimedOut(s, i)) then None
      else Some(s)
    case W(i) => if IsAsleep(s, i) then Some(s.(workers := s.workers[i := Woken(false)])) else None
    case D(j) => if IsWaiting(s, j) then Some(s.(destroyers := s.destroyers[j := Awake])) else None
  }

  function Broadcasted(s: State): State {
    s.(workers := seq(|s.workers|, i requires 0 <= i < |s.workers| =>
                      if s.workers[i].Asleep? then Woken(false) else s.workers[i]),
       destroyers := seq(|s.destroyers|, j requires 0 <= j < |s.destroyers| =>
                      if s.destroyers[j].Waiting? then Awake else s.destroyers[j]))
  }

  /** Worker `i` ends the critical section `r`. */
  ghost function AfterSection(s: State, i: nat, r: Section, timedOut: bool, w: Waiter): Option<State>
    requires i < |s.workers|
  {
    var s' := s.(pool := r.pool);
    match r.outcome
    case Sleep => if w == NoOne then Some(s'.(workers := s.workers[i := Asleep])) else None
    case Loop => if w == NoOne then Some(s'.(workers := s.workers[i := Ready])) else None
    case Take(t) =>
      if w == NoOne then
        Some(s'.(workers := s.workers[i := Running(t, timedOut)], started := s.started + [t]))
      else None
    case Leave(signal) =>
      var s'' := s'.(workers := s.workers[i := Exited]);
      if signal then Signalled(s'', w) else if w == NoOne then Some(s'') else None
  }

  /** A task node comes fresh from malloc, so no two submissions share one. */
  ghost function SubmitStep(s: State, task: nat, w: Waiter): Option<State> {
    if task in s.submitted then None
    else
      var s' := s.(pool := Added(s.pool, task), submitted := s.submitted + [task]);
      match AddOutcomeOf(s.pool)
      case Signal => Signalled(s', w)
      case Spawn => if w == NoOne then Some(s'.(workers := s.workers + [Ready])) else None
      case Nothing => if w == NoOne then Some(s') else None
  }

  ghost function WorkerStep(s: State, i: nat, e: Event): Option<State>
    requires i < |s.workers|
  {
    match s.workers[i]
    case Ready => if e.EnterLoop? then AfterSection(s, i, Enter(s.pool), false, e.woken) else None
    case Asleep =>
      if e.Timeout? then Some(s.(workers := s.workers[i := Woken(true)]))
      else if e.SpuriousWorker? then Some(s.(workers := s.workers[i := Woken(false)]))
      else None
    case Woken(f) => if e.Relock? then AfterSection(s, i, Wake(s.pool, f), f, e.woken) else None
    case Running(t, f) =>
      if e.RunTask? then Some(s.(workers := s.workers[i := Ran(f)], finished := s.finished + {t})) else None
    case Ran(f) => if e.Finish? then AfterSection(s, i, LeaveOrLoop(s.pool, f), f, e.woken) else None
    case Exited => None
  }

  /** The first test of `quit` is made without the mutex. */
  ghost function DestroyerStep(s: State, j: nat, e: Event): Option<State>
    requires j < |s.destroyers|
  {
    match s.destroyers[j]
    case Outside =>
      if e.CheckQuit? then
        Some(s.(destroyers := s.destroyers[j := if s.pool.quit then Returned else Checked]))
      else None
    case Checked =>
      if !e.Destroy? then None
      else
        var s' := s.(pool := s.pool.(quit := true));
        (match DestroyOutcomeOf(s.pool)
         case Broadcast => Some(Broadcasted(s'.(destroyers := s.destroyers[j := Returned])))
         case Wait => Some(s'.(destroyers := s.destroyers[j := Waiting]))
         case Return => Some(s'.(destroyers := s.destroyers[j := Returned])))
    case Waiting =>
      if e.SpuriousDestroyer? then Some(s.(destroyers := s.destroyers[j := Awake])) else None
    case Awake =>
      if e.DestroyerRelock? then Some(s.(destroyers := s.destroyers[j := Returned])) else None
    case Returned => None
  }

  predicate IsDestroyerEvent(e: Event) {
    e.CheckQuit? || e.Destroy? || e.SpuriousDestroyer? || e.DestroyerRelock?
  }

  ghost function Step(s: State, e: Event): Option<State> {
    if e.Submit? then SubmitStep(s, e.task, e.woken)
    else if IsDestroyerEvent(e) then (if e.j < |s.destroyers| then DestroyerStep(s, e.j, e) else None)
    else if e.i < |s.workers| then WorkerStep(s, e.i, e)
    else None
  }

  // ----- The invariant -----

  function InWait(w: Worker): int { if w.Asleep? || w.Woken? then 1 else 0 }

  function Live(w: Worker): int { if w.Exited? then 0 else 1 }

  predicate LiveAndAwake(s: State, i: nat) {
    i < |s.workers| && !s.workers[i].Exited? && !s.workers[i].Asleep?
  }

  ghost predicate Counters(s: State) {
    && s.pool.idle == Sum(s.workers, InWait)
    && s.pool.count == Sum(s.workers, Live)
    && 0 <= s.pool.idle <= s.pool.count
    && (s.pool.count <= s.pool.maxThreads || s.pool.count == 0)
  }

  ghost predicate Sleepers(s: State) {
    && (s.pool.quit ==> forall i :: !IsAsleep(s, i))
    && ((exists j :: IsWaiting(s, j)) ==> s.pool.quit && s.pool.idle == 0 && s.pool.maxThreads >= 1)
  }

  /** No stranded task. */
  ghost predicate Attended(s: State) {
    s.pool.queue != [] ==> exists i :: LiveAndAwake(s, i)
  }

  predicate Runs(s: State, i: nat, t: nat) {
    i < |s.workers| && s.workers[i].Running? && s.workers[i].task == t
  }

  ghost predicate Distinct(ts: seq<nat>) {
    forall a, b :: 0 <= a < b < |ts| ==> ts[a] != ts[b]
  }

  /** Every submitted task is exactly one of queued, running and finished. */
  ghost predicate Tasks(s: State) {
    && s.submitted == s.started + s.pool.queue
    && Distinct(s.submitted)
    && (forall t :: t in s.finished ==> t in s.started)
    && (forall i, t :: Runs(s, i, t) ==> t in s.started && t !in s.finished)
    && (forall i, k, t :: Runs(s, i, t) && Runs(s, k, t) ==> i == k)
    && (forall t :: t in s.started ==> t in s.finished || exists i :: Runs(s, i, t))
  }

  /** A lone destroyer waits only while some worker is alive to signal it. */
  ghost predicate DestroyerAttended(s: State) {
    |s.destroyers| == 1 && s.destroyers[0].Waiting? ==> s.pool.count > 0
  }

  ghost predicate Inv(s: State) {
    && Counters(s)
    && Sleepers(s)
    && (s.pool.maxThreads >= 1 ==> Attended(s))
    && Tasks(s)
    && DestroyerAttended(s)
  }

  // ----- Every step keeps the invariant -----

  /** `r` is what the code does when worker `i`, whose timeout flag is `f`, locks the mutex. */
  ghost predicate InSection(s: State, i: nat, r: Section, f: bool) {
    && i < |s.workers|
    && match s.workers[i]
       case Ready => !f && r == Enter(s.pool)
       case Woken(g) => f == g && r == Wake(s.pool, f)
       case Ran(g) => f == g && r == LeaveOrLoop(s.pool, f)
       case _ => false
  }

  lemma SetWorker(s: State, i: nat, w: Worker)
    requires i < |s.workers|
    ensures Sum(s.workers[i := w], InWait) == Sum(s.workers, InWait) - InWait(s.workers[i]) + InWait(w)
    ensures Sum(s.workers[i := w], Live) == Sum(s.workers, Live) - Live(s.workers[i]) + Live(w)
  {
    SumUpdate(s.workers, i, w, InWait);
    SumUpdate(s.workers, i, w, Live);
  }

  /** Waiting workers are live workers, so there are at most as many. */
  lemma {:induction false} WaitingAreLive(ws: seq<Worker>)
    ensures 0 <= Sum(ws, InWait) <= Sum(ws, Live)
  {
    if ws != [] {
      WaitingAreLive(ws[..|ws| - 1]);
    }
  }

  lemma SleepKeeps(s: State, i: nat, r: Section, f: bool)
    requires Inv(s) && InSection(s, i, r, f) && r.outcome == Sleep
    ensures Inv(AfterSection(s, i, r, f, NoOne).value)
  {
    SetWorker(s, i, Asleep);
    var s' := AfterSection(s, i, r, f, NoOne).value;
    WaitingAreLive(s'.workers);
    assert forall k, t :: Runs(s', k, t) <==> Runs(s, k, t);
    assert forall j :: IsWaiting(s', j) <==> IsWaiting(s, j);
  }

  lemma LoopKeeps(s: State, i: nat, r: Section, f: bool)
    requires Inv(s) && InSection(s, i, r, f) && r.outcome == Loop
    ensures Inv(AfterSection(s, i, r, f, NoOne).value)
  {
    SetWorker(s, i, Ready);
    var s' := AfterSection(s, i, r, f, NoOne).value;
    assert forall k, t :: Runs(s', k, t) <==> Runs(s, k, t);
    assert forall j :: IsWaiting(s', j) <==> IsWaiting(s, j);
    assert forall k :: IsAsleep(s', k) ==> IsAsleep(s, k);
    assert LiveAndAwake(s', i);
  }

  /** The task taken is the oldest one queued, and nobody had it before. */
  lemma TakeTasks(s: State, i: nat, r: Section, f: bool)
    requires Tasks(s) && InSection(s, i, r, f) && r.outcome.Take?
    ensures Tasks(AfterSection(s, i, r, f, NoOne).value)
  {
    var t0 := s.pool.queue[0];
    var s' := AfterSection(s, i, r, f, NoOne).value;
    assert s'.started + s'.pool.queue == s.submitted;
    assert s.submitted[|s.started|] == t0;
    forall a | 0 <= a < |s.started| ensures s.started[a] != t0 {
      assert s.submitted[a] == s.started[a];
    }
    assert Runs(s', i, t0);
    assert t0 == s'.started[|s.started|];
    assert forall k, t :: Runs(s', k, t) <==> (if k == i then t == t0 else Runs(s, k, t));
    assert forall t :: t in s'.started <==> t in s.started || t == t0;
  }

  lemma TakeKeeps(s: State, i: nat, r: Section, f: bool)
    requires Inv(s) && InSection(s, i, r, f) && r.outcome.Take?
    ensures Inv(AfterSection(s, i, r, f, NoOne).value)
  {
    TakeTasks(s, i, r, f);
    SetWorker(s, i, Running(s.pool.queue[0], f));
    var s' := AfterSection(s, i, r, f, NoOne).value;
    WaitingAreLive(s'.workers);
    assert forall j :: IsWaiting(s', j) <==> IsWaiting(s, j);
    assert forall k :: IsAsleep(s', k) ==> IsAsleep(s, k);
    assert LiveAndAwake(s', i);
  }

  /** Waking a waiter keeps the invariant; it may only make a worker available. */
  lemma SignalKeeps(s: State, w: Waiter)
    requires Signalled(s, w).Some?
    requires Counters(s) && Sleepers(s) && Tasks(s)
    ensures var s' := Signalled(s, w).value;
      && Counters(s') && Sleepers(s') && Tasks(s')
      && s'.pool == s.pool
      && (forall k :: LiveAndAwake(s, k) ==> LiveAndAwake(s', k))
      && (w.W? ==> LiveAndAwake(s', w.i))
      && (DestroyerAttended(s) ==> DestroyerAttended(s'))
  {
    var s' := Signalled(s, w).value;
    match w
    case NoOne =>
    case D(j) =>
      assert forall k :: IsWaiting(s', k) ==> IsWaiting(s, k);
      assert forall k :: IsAsleep(s', k) <==> IsAsleep(s, k);
      assert forall k, t :: Runs(s', k, t) <==> Runs(s, k, t);
    case W(i) =>
      SetWorker(s, i, Woken(false));
      assert forall k :: IsAsleep(s', k) ==> IsAsleep(s, k);
      assert forall k :: IsWaiting(s', k) <==> IsWaiting(s, k);
      assert forall k, t :: Runs(s', k, t) <==> Runs(s, k, t);
  }

  /** A worker exits only when no task is queued. */
  lemma ExitKeeps(s: State, i: nat, r: Section, f: bool)
    requires Inv(s) && InSection(s, i, r, f) && r.outcome.Leave?
    ensures var s' := s.(pool := r.pool, workers := s.workers[i := Exited]);
      && Tasks(s') && Sleepers(s') && Counters(s') && s'.pool.queue == []
      && (r.outcome.signal <==> s'.pool.count == 0)
  {
    SetWorker(s, i, Exited);
    var s' := s.(pool := r.pool, workers := s.workers[i := Exited]);
    WaitingAreLive(s'.workers);
    assert forall k, t :: Runs(s', k, t) <==> Runs(s, k, t);
    assert forall j :: IsWaiting(s', j) <==> IsWaiting(s, j);
    assert forall k :: IsAsleep(s', k) ==> IsAsleep(s, k);
  }

  /** `count == 0` means that every worker has exited. */
  lemma NobodyLives(s: State)
    requires Counters(s) && s.pool.count == 0
    ensures forall i :: 0 <= i < |s.workers| ==> s.workers[i].Exited?
  {
    forall i | 0 <= i < |s.workers| ensures s.workers[i].Exited? {
      SumBoundsElement(s.workers, i, Live);
    }
  }

  lemma LeaveKeeps(s: State, i: nat, r: Section, f: bool, w: Waiter)
    requires Inv(s) && InSection(s, i, r, f) && r.outcome.Leave?
    requires AfterSection(s, i, r, f, w).Some?
    ensures Inv(AfterSection(s, i, r, f, w).value)
  {
    ExitKeeps(s, i, r, f);
    var s' := s.(pool := r.pool, workers := s.workers[i := Exited]);
    if r.outcome.signal {
      SignalKeeps(s', w);
      if |s.destroyers| == 1 && s.destroyers[0].Waiting? {
        // quit is set and no worker is left, so the signal must reach the destroyer
        NobodyLives(s');
        assert IsWaiting(s', 0);
        assert w == D(0);
      }
    }
  }

  function Queued(s: State, task: nat): State {
    s.(pool := Added(s.pool, task), submitted := s.submitted + [task])
  }

  lemma QueuedTasks(s: State, task: nat)
    requires Tasks(s) && task !in s.submitted
    ensures Tasks(Queued(s, task))
  {
    var s1 := Queued(s, task);
    assert s1.submitted == s1.started + s1.pool.queue;
    assert forall k, t :: Runs(s1, k, t) <==> Runs(s, k, t);
  }

  lemma QueuedSleepers(s: State, task: nat)
    requires Sleepers(s)
    ensures Sleepers(Queued(s, task))
  {
    var s1 := Queued(s, task);
    assert forall j :: IsWaiting(s1, j) <==> IsWaiting(s, j);
    assert forall k :: IsAsleep(s1, k) <==> IsAsleep(s, k);
  }

  /** A signal that finds a worker inside the wait leaves a worker awake. */
  lemma SignalAttends(s: State, s1: State, w: Waiter)
    requires Counters(s) && Sleepers(s1) && s1.workers == s.workers && s1.pool.idle == s.pool.idle > 0
    requires Signalled(s1, w).Some?
    ensures exists k :: LiveAndAwake(Signalled(s1, w).value, k)
  {
    assert forall j :: !IsWaiting(s1, j);
    if k :| IsTimedOut(s1, k) {
      assert LiveAndAwake(Signalled(s1, w).value, k);
    } else if w.NoOne? {
      var k := SumPositiveElement(s.workers, InWait);
      assert !IsAsleep(s1, k);
      assert LiveAndAwake(s1, k);
    } else {
      assert LiveAndAwake(Signalled(s1, w).value, w.i);
    }
  }

  lemma SubmitSignals(s: State, task: nat, w: Waiter)
    requires Inv(s) && SubmitStep(s, task, w).Some? && AddOutcomeOf(s.pool) == Signal
    ensures Inv(SubmitStep(s, task, w).value)
  {
    var s1 := Queued(s, task);
    QueuedTasks(s, task);
    QueuedSleepers(s, task);
    SignalKeeps(s1, w);
    SignalAttends(s, s1, w);
  }

  lemma SpawnTasks(s: State)
    requires Tasks(s)
    ensures Tasks(s.(workers := s.workers + [Ready]))
  {
    var s' := s.(workers := s.workers + [Ready]);
    assert forall k, t :: Runs(s', k, t) <==> Runs(s, k, t);
  }

  lemma OneMoreWorker(ws: seq<Worker>)
    ensures Sum(ws + [Ready], InWait) == Sum(ws, InWait) && Sum(ws + [Ready], Live) == Sum(ws, Live) + 1
  {
    SumAppend(ws, Ready, InWait);
    SumAppend(ws, Ready, Live);
  }

  lemma SubmitSpawns(s: State, task: nat)
    requires Inv(s) && SubmitStep(s, task, NoOne).Some? && AddOutcomeOf(s.pool) == Spawn
    ensures Inv(SubmitStep(s, task, NoOne).value)
  {
    var s1, s' := Queued(s, task), SubmitStep(s, task, NoOne).value;
    QueuedTasks(s, task);
    SpawnTasks(s1);
    OneMoreWorker(s.workers);
    assert LiveAndAwake(s', |s.workers|);
    assert forall j :: IsWaiting(s', j) <==> IsWaiting(s, j);
    assert forall k :: IsAsleep(s', k) <==> IsAsleep(s, k);
  }

  lemma SubmitQueues(s: State, task: nat)
    requires Inv(s) && SubmitStep(s, task, NoOne).Some? && AddOutcomeOf(s.pool) == Nothing
    ensures Inv(SubmitStep(s, task, NoOne).value)
  {
    QueuedTasks(s, task);
    QueuedSleepers(s, task);
    if s.pool.maxThreads >= 1 {
      var k := BusyWorker(s);
      assert LiveAndAwake(Queued(s, task), k);
    }
  }

  lemma SubmitKeeps(s: State, task: nat, w: Waiter)
    requires Inv(s) && SubmitStep(s, task, w).Some?
    ensures Inv(SubmitStep(s, task, w).value)
  {
    match AddOutcomeOf(s.pool)
    case Signal => SubmitSignals(s, task, w);
    case Spawn => SubmitSpawns(s, task);
    case Nothing => SubmitQueues(s, task);
  }

  /** With workers alive and nobody in the wait, some worker is awake. */
  lemma BusyWorker(s: State) returns (k: nat)
    requires Counters(s) && s.pool.idle == 0 && s.pool.count > 0
    ensures LiveAndAwake(s, k)
  {
    k := SumPositiveElement(s.workers, Live);
    SumBoundsElement(s.workers, k, InWait);
  }

  lemma BroadcastKeeps(s: State, j: nat)
    requires Inv(s) && j < |s.destroyers| && s.destroyers[j] == Checked
    requires DestroyOutcomeOf(s.pool) == Broadcast
    ensures Inv(DestroyerStep(s, j, Destroy(j)).value)
  {
    var s' := DestroyerStep(s, j, Destroy(j)).value;
    SumPointwise(s'.workers, s.workers, InWait, InWait);
    SumPointwise(s'.workers, s.workers, Live, Live);
    assert forall k :: !IsAsleep(s', k);
    assert forall k :: !IsWaiting(s', k);
    assert forall k, t :: Runs(s', k, t) <==> Runs(s, k, t);
    assert forall k :: LiveAndAwake(s, k) ==> LiveAndAwake(s', k);
  }

  lemma DestroyerKeeps(s: State, j: nat, e: Event)
    requires Inv(s) && j < |s.destroyers| && DestroyerStep(s, j, e).Some?
    ensures Inv(DestroyerStep(s, j, e).value)
  {
    var s' := DestroyerStep(s, j, e).value;
    if s.destroyers[j].Checked? && DestroyOutcomeOf(s.pool).Broadcast? {
      BroadcastKeeps(s, j);
    } else {
      if s.destroyers[j].Checked? {
        NobodySleeps(s);
      }
      assert forall k :: IsAsleep(s', k) <==> IsAsleep(s, k);
      assert forall k :: IsWaiting(s', k) ==> IsWaiting(s, k) || (k == j && s.pool.idle == 0);
      assert forall k, t :: Runs(s', k, t) <==> Runs(s, k, t);
      assert forall k :: LiveAndAwake(s', k) <==> LiveAndAwake(s, k);
    }
  }

  /** `idle == 0` means that no worker sleeps. */
  lemma NobodySleeps(s: State)
    requires Counters(s) && s.pool.idle == 0
    ensures forall i :: !IsAsleep(s, i)
  {
    forall i | 0 <= i < |s.workers| ensures !s.workers[i].Asleep? {
      SumBoundsElement(s.workers, i, InWait);
    }
  }

  lemma WorkerKeeps(s: State, i: nat, e: Event)
    requires Inv(s) && i < |s.workers| && WorkerStep(s, i, e).Some?
    ensures Inv(WorkerStep(s, i, e).value)
  {
    match s.workers[i]
    case Ready => SectionKeeps(s, i, Enter(s.pool), false, e.woken);
    case Woken(f) => SectionKeeps(s, i, Wake(s.pool, f), f, e.woken);
    case Ran(f) => SectionKeeps(s, i, LeaveOrLoop(s.pool, f), f, e.woken);
    case Asleep => TimeoutKeeps(s, i, e);
    case Running(t, f) => RunTaskKeeps(s, i);
  }

  lemma SectionKeeps(s: State, i: nat, r: Section, f: bool, w: Waiter)
    requires Inv(s) && InSection(s, i, r, f) && AfterSection(s, i, r, f, w).Some?
    ensures Inv(AfterSection(s, i, r, f, w).value)
  {
    match r.outcome
    case Sleep => SleepKeeps(s, i, r, f);
    case Loop => LoopKeeps(s, i, r, f);
    case Take(t) => TakeKeeps(s, i, r, f);
    case Leave(signal) => LeaveKeeps(s, i, r, f, w);
  }

  lemma TimeoutKeeps(s: State, i: nat, e: Event)
    requires Inv(s) && IsAsleep(s, i) && (e.Timeout? || e.SpuriousWorker?)
    ensures Inv(WorkerStep(s, i, e).value)
  {
    var s' := WorkerStep(s, i, e).value;
    SetWorker(s, i, s'.workers[i]);
    assert forall k :: IsAsleep(s', k) ==> IsAsleep(s, k);
    assert forall k :: IsWaiting(s', k) <==> IsWaiting(s, k);
    assert forall k, t :: Runs(s', k, t) <==> Runs(s, k, t);
    assert LiveAndAwake(s', i);
  }

  lemma RunTaskKeeps(s: State, i: nat)
    requires Inv(s) && i < |s.workers| && s.workers[i].Running?
    ensures Inv(WorkerStep(s, i, RunTask(i)).value)
  {
    var t0 := s.workers[i].task;
    var s' := WorkerStep(s, i, RunTask(i)).value;
    SetWorker(s, i, s'.workers[i]);
    assert Runs(s, i, t0);
    assert forall k :: IsAsleep(s', k) ==> IsAsleep(s, k);
    assert forall k :: IsWaiting(s', k) <==> IsWaiting(s, k);
    assert forall k, t :: Runs(s', k, t) <==> Runs(s, k, t) && k != i;
    assert forall k :: LiveAndAwake(s', k) <==> LiveAndAwake(s, k);
  }

  lemma StepKeeps(s: State, e: Event)
    requires Inv(s) && Step(s, e).Some?
    ensures Inv(Step(s, e).value)
  {
    if e.Submit? {
      SubmitKeeps(s, e.task, e.woken);
    } else if IsDestroyerEvent(e) {
      DestroyerKeeps(s, e.j, e);
    } else {
      WorkerKeeps(s, e.i, e);
    }
  }

  ghost predicate ReachablePool(maxThreads: int, destroyers: nat, s: State) {
    Reachable(Step, Initial(maxThreads, destroyers), s)
  }

  ghost predicate InvFor(maxThreads: int, destroyers: nat, s: State) {
    Inv(s) && s.pool.maxThreads == maxThreads && |s.destroyers| == destroyers
  }

  lemma StepFrame(s: State, e: Event)
    requires Step(s, e).Some?
    ensures Step(s, e).value.pool.maxThreads == s.pool.maxThreads
    ensures |Step(s, e).value.destroyers| == |s.destroyers|
  {}

  lemma Invariant(maxThreads: int, destroyers: nat, s: State)
    requires ReachablePool(maxThreads, destroyers, s)
    ensures InvFor(maxThreads, destroyers, s)
  {
    var inv := (s: State) => InvFor(maxThreads, destroyers, s);
    assert Inductive(Step, inv) by {
      forall s, e | InvFor(maxThreads, destroyers, s) && Step(s, e).Some?
        ensures InvFor(maxThreads, destroyers, Step(s, e).value)
      {
        StepKeeps(s, e);
        StepFrame(s, e);
      }
    }
    Invariance(Step, inv, Initial(maxThreads, destroyers), s);
  }

  // ----- What holds of every run -----

  /** Whenever the mutex is free and a task is queued, some live worker is not asleep.
      That holds of every run exactly when the pool may have a worker at all. */
  lemma NoStrandedTask(maxThreads: int, destroyers: nat)
    ensures (forall s :: ReachablePool(maxThreads, destroyers, s) ==> Attended(s)) <==> maxThreads >= 1
  {
    if maxThreads >= 1 {
      forall s | ReachablePool(maxThreads, destroyers, s) ensures Attended(s) {
        Invariant(maxThreads, destroyers, s);
      }
    } else {
      var s0 := Initial(maxThreads, destroyers);
      ReachableStart(Step, s0);
      ReachableStep(Step, s0, s0, Submit(0, NoOne));
      var s1 := Step(s0, Submit(0, NoOne)).value;
      assert forall i :: !LiveAndAwake(s1, i);
      assert s1.pool.queue == [0] && !Attended(s1);
    }
  }

  /** `idle` counts the workers inside the wait, `count` the workers created and not exited. */
  lemma PoolCounters(maxThreads: int, destroyers: nat, s: State)
    requires ReachablePool(maxThreads, destroyers, s)
    ensures s.pool.idle == Sum(s.workers, InWait) && s.pool.count == Sum(s.workers, Live)
    ensures 0 <= s.pool.idle <= s.pool.count
    ensures s.pool.count <= if maxThreads >= 0 then maxThreads else 0
  {
    Invariant(maxThreads, destroyers, s);
  }

  /** Tasks leave the queue in the order of submission, each at most once, and every
      submitted task is exactly one of queued, running and finished. */
  lemma TaskConservation(maxThreads: int, destroyers: nat, s: State, t: nat)
    requires ReachablePool(maxThreads, destroyers, s)
    ensures s.started <= s.submitted && s.submitted[|s.started|..] == s.pool.queue
    ensures Distinct(s.submitted)
    ensures forall i, k :: Runs(s, i, t) && Runs(s, k, t) ==> i == k
    ensures t in s.submitted <==> t in s.pool.queue || t in s.finished || exists i :: Runs(s, i, t)
    ensures !(t in s.pool.queue && t in s.finished)
    ensures forall i :: Runs(s, i, t) ==> t !in s.pool.queue && t !in s.finished
  {
    Invariant(maxThreads, destroyers, s);
    forall a, b | 0 <= a < |s.started| && 0 <= b < |s.pool.queue| ensures s.started[a] != s.pool.queue[b] {
      assert s.submitted[a] == s.started[a] && s.submitted[|s.started| + b] == s.pool.queue[b];
    }
  }

  /** Once `quit` is set no worker sleeps, now or later. */
  lemma QuitEndsSleep(maxThreads: int, destroyers: nat, s: State, i: nat)
    requires ReachablePool(maxThreads, destroyers, s) && s.pool.quit
    ensures !IsAsleep(s, i)
  {
    Invariant(maxThreads, destroyers, s);
  }

  /** Unless the wakeup is spurious, a waiting destroyer is woken only when no worker
      and no queued task is left. */
  lemma DestroyerWakesLast(maxThreads: int, destroyers: nat, s: State, e: Event, j: nat)
    requires ReachablePool(maxThreads, destroyers, s)
    requires IsWaiting(s, j) && Step(s, e).Some? && !IsWaiting(Step(s, e).value, j)
    requires e != SpuriousDestroyer(j)
    ensures Step(s, e).value.pool.count == 0 && Step(s, e).value.pool.queue == []
  {
    assert s.pool.idle == 0 && s.pool.quit by { Invariant(maxThreads, destroyers, s); }
    WokenLast(s, e, j);
  }

  lemma WokenLast(s: State, e: Event, j: nat)
    requires IsWaiting(s, j) && Step(s, e).Some? && !IsWaiting(Step(s, e).value, j)
    requires e != SpuriousDestroyer(j) && s.pool.idle == 0 && s.pool.quit
    ensures Step(s, e).value.pool.count == 0 && Step(s, e).value.pool.queue == []
  {}

  /** A waiting destroyer always has a live worker to wait for, in every run, exactly
      when at most one thread calls destroy (or the pool never has a worker): of two
      that wait, the last worker's single signal wakes only one. */
  lemma NoAbandonedDestroyer(maxThreads: int, destroyers: nat)
    ensures (forall s, j :: ReachablePool(maxThreads, destroyers, s) && IsWaiting(s, j) ==> s.pool.count > 0)
       <==> (destroyers <= 1 || maxThreads < 1)
  {
    if destroyers <= 1 || maxThreads < 1 {
      forall s, j | ReachablePool(maxThreads, destroyers, s) && IsWaiting(s, j) ensures s.pool.count > 0 {
        Invariant(maxThreads, destroyers, s);
      }
    } else {
      var s := TwoDestroyers(maxThreads, destroyers);
    }
  }

  /** A first task has been submitted and runs. */
  lemma OneRunning(maxThreads: int, destroyers: nat) returns (s: State)
    requires maxThreads >= 1
    ensures ReachablePool(maxThreads, destroyers, s)
    ensures s == State(Pool([], 1, 0, maxThreads, false), [Running(0, false)], seq(destroyers, _ => Outside), [0], [0], {})
  {
    s := Initial(maxThreads, destroyers);
    ReachableStart(Step, s);
    s := Advance(maxThreads, destroyers, s, Submit(0, NoOne));
    s := Advance(maxThreads, destroyers, s, EnterLoop(0, NoOne));
  }

  /** And two threads wait to destroy the pool. */
  lemma BothWaiting(maxThreads: int, destroyers: nat) returns (s: State)
    requires destroyers >= 2 && maxThreads >= 1
    ensures ReachablePool(maxThreads, destroyers, s)
    ensures s.pool == Pool([], 1, 0, maxThreads, true) && s.workers == [Running(0, false)]
    ensures IsWaiting(s, 0) && IsWaiting(s, 1)
  {
    s := OneRunning(maxThreads, destroyers);
    s := Advance(maxThreads, destroyers, s, CheckQuit(0));
    s := Advance(maxThreads, destroyers, s, CheckQuit(1));
    s := Advance(maxThreads, destroyers, s, Destroy(0));
    s := Advance(maxThreads, destroyers, s, Destroy(1));
  }

  lemma TwoDestroyers(maxThreads: int, destroyers: nat) returns (s: State)
    requires destroyers >= 2 && maxThreads >= 1
    ensures ReachablePool(maxThreads, destroyers, s) && IsWaiting(s, 1) && s.pool.count == 0
  {
    s := BothWaiting(maxThreads, destroyers);
    s := Advance(maxThreads, destroyers, s, RunTask(0));
    assert IsWaiting(s, 0) && IsWaiting(s, 1);
    s := Advance(maxThreads, destroyers, s, Finish(0, D(0)));
  }

  lemma Advance(maxThreads: int, destroyers: nat, s: State, e: Event) returns (s': State)
    requires ReachablePool(maxThreads, destroyers, s) && Step(s, e).Some?
    ensures s' == Step(s, e).value && ReachablePool(maxThreads, destroyers, s')
  {
    ReachableStep(Step, Initial(maxThreads, destroyers), s, e);
    s' := Step(s, e).value;
  }

  /** The first task is done and its worker waits for another. */
  lemma OneAsleep(maxThreads: int, destroyers: nat) returns (s: State)
    requires maxThreads >= 1
    ensures ReachablePool(maxThreads, destroyers, s)
    ensures s == State(Pool([], 1, 1, maxThreads, false), [Asleep], seq(destroyers, _ => Outside), [0], [0], {0})
  {
    s := OneRunning(maxThreads, destroyers);
    s := Advance(maxThreads, destroyers, s, RunTask(0));
    s := Advance(maxThreads, destroyers, s, Finish(0, NoOne));
    s := Advance(maxThreads, destroyers, s, EnterLoop(0, NoOne));
  }

  /** Destroying a pool with an idle worker returns at once, here with a task still queued. */
  lemma DestroyMayReturnEarly(maxThreads: int, destroyers: nat) returns (s: State)
    requires maxThreads >= 1 && destroyers >= 1
    ensures ReachablePool(maxThreads, destroyers, s)
    ensures |s.destroyers| > 0 && s.destroyers[0] == Returned && s.pool.count > 0 && s.pool.queue != []
  {
    s := OneAsleep(maxThreads, destroyers);
    assert IsAsleep(s, 0);
    s := Advance(maxThreads, destroyers, s, Submit(1, W(0)));
    s := Advance(maxThreads, destroyers, s, CheckQuit(0));
    s := Advance(maxThreads, destroyers, s, Destroy(0));
  }

  /** Past the unlocked test of `quit`, a call of destroy returns at once with workers left exactly
      when it finds one idle. */
  lemma DestroyReturnsEarlyWhenIdle(maxThreads: int, destroyers: nat, s: State, j: nat)
    requires ReachablePool(maxThreads, destroyers, s) && j < |s.destroyers| && s.destroyers[j] == Checked
    ensures Step(s, Destroy(j)).Some?
    ensures var s' := Step(s, Destroy(j)).value;
      s'.destroyers[j].Returned? && s'.pool.count > 0 <==> s.pool.idle > 0
  {
    Invariant(maxThreads, destroyers, s);
  }

  /** What destroyer `j` finds at the step that lets it return. */
  predicate FindsWorkers(s: State, j: nat)
    requires j < |s.destroyers|
  {
    match s.destroyers[j]
    case Outside => s.pool.quit && s.pool.count > 0    // at the unlocked test of `quit`
    case Checked => s.pool.idle > 0                    // before its broadcast
    case Awake => s.pool.count > 0                     // locking again after its wait
    case _ => false
  }

  /** The step `e` lets destroyer `j` return. */
  ghost predicate LetsReturn(s: State, e: Event, j: nat) {
    && Step(s, e).Some? && j < |s.destroyers| && j < |Step(s, e).value.destroyers|
    && !s.destroyers[j].Returned? && Step(s, e).value.destroyers[j].Returned?
  }

  lemma ReturnIsOwnStep(s: State, e: Event, j: nat)
    requires LetsReturn(s, e, j)
    ensures IsDestroyerEvent(e) && e.j == j && DestroyerStep(s, j, e) == Step(s, e)
  {}

  /** Whichever way a destroyer returns, workers are left exactly when it finds `quit` set and
      workers left, or finds one idle, or has the mutex back from its wait with workers left. */
  lemma ReturnsWithWorkers(maxThreads: int, destroyers: nat, s: State, e: Event, j: nat)
    requires ReachablePool(maxThreads, destroyers, s) && LetsReturn(s, e, j)
    ensures Step(s, e).value.pool.count > 0 <==> FindsWorkers(s, j)
  {
    assert s.pool.count >= s.pool.idle >= 0 by { Invariant(maxThreads, destroyers, s); }
    ReturnIsOwnStep(s, e, j);
  }

  /** A waiting destroyer is woken in its wait. */
  lemma WokenFromWait(s: State, e: Event, j: nat)
    requires Step(s, e).Some? && j < |s.destroyers| && j < |Step(s, e).value.destroyers|
    requires s.destroyers[j] != Awake && Step(s, e).value.destroyers[j] == Awake
    ensures IsWaiting(s, j)
  {}

  lemma EmptyStays(s: State, e: Event)
    requires Inv(s) && s.pool.count == 0 && s.pool.queue == [] && Step(s, e).Some? && !e.Submit?
    ensures Step(s, e).value.pool.count == 0 && Step(s, e).value.pool.queue == []
  {
    NobodyLives(s);
  }

  ghost predicate IsAwakeAfter(maxThreads: int, destroyers: nat, es: seq<Event>, j: nat) {
    var s := Exec(Step, Initial(maxThreads, destroyers), es);
    s.Some? && j < |s.value.destroyers| && s.value.destroyers[j] == Awake
  }

  /** Event `k` of the run wakes destroyer `j` spuriously, or submits a task when it has been woken. */
  ghost predicate Disturbs(maxThreads: int, destroyers: nat, es: seq<Event>, j: nat, k: nat) {
    k < |es| && (es[k] == SpuriousDestroyer(j) || (es[k].Submit? && IsAwakeAfter(maxThreads, destroyers, es[..k], j)))
  }

  lemma DisturbedEarlier(maxThreads: int, destroyers: nat, es: seq<Event>, j: nat, k: nat)
    requires es != [] && Disturbs(maxThreads, destroyers, es[..|es| - 1], j, k)
    ensures Disturbs(maxThreads, destroyers, es, j, k)
  {
    assert es[..|es| - 1][..k] == es[..k];
  }

  /** A destroyer that nothing disturbs is awake only when no worker and no task is left. */
  lemma {:induction false} UndisturbedFindsNone(maxThreads: int, destroyers: nat, es: seq<Event>, j: nat)
    requires IsAwakeAfter(maxThreads, destroyers, es, j)
    requires forall k :: !Disturbs(maxThreads, destroyers, es, j, k)
    ensures var s := Exec(Step, Initial(maxThreads, destroyers), es).value; s.pool.count == 0 && s.pool.queue == []
    decreases |es|
  {
    var s0 := Initial(maxThreads, destroyers);
    if es != [] {
      var before, e := es[..|es| - 1], es[|es| - 1];
      ExecLast(Step, s0, es);
      var t := Exec(Step, s0, before).value;
      assert ReachablePool(maxThreads, destroyers, t);
      assert !Disturbs(maxThreads, destroyers, es, j, |es| - 1);
      StepFrame(t, e);
      if t.destroyers[j] == Awake {
        forall k: nat ensures !Disturbs(maxThreads, destroyers, before, j, k) {
          if Disturbs(maxThreads, destroyers, before, j, k) {
            DisturbedEarlier(maxThreads, destroyers, es, j, k);
          }
        }
        UndisturbedFindsNone(maxThreads, destroyers, before, j);
        Invariant(maxThreads, destroyers, t);
        EmptyStays(t, e);
      } else {
        WokenFromWait(t, e, j);
        DestroyerWakesLast(maxThreads, destroyers, t, e, j);
      }
    }
  }

  /** A destroyer that has waited returns with workers left only if its wake-up was spurious or a
      task was submitted after it. */
  lemma LateReturnIsDisturbed(maxThreads: int, destroyers: nat, es: seq<Event>, j: nat) returns (k: nat)
    requires IsAwakeAfter(maxThreads, destroyers, es, j)
    requires Exec(Step, Initial(maxThreads, destroyers), es).value.pool.count > 0
    ensures Disturbs(maxThreads, destroyers, es, j, k)
  {
    if forall i: nat :: !Disturbs(maxThreads, destroyers, es, j, i) {
      UndisturbedFindsNone(maxThreads, destroyers, es, j);
    }
    k :| Disturbs(maxThreads, destroyers, es, j, k);
  }

  /** Event `k` of the run lets destroyer `j` return without a wait although the pool may be at work:
      it finds `quit` set, or an idle worker. */
  ghost predicate Hurries(maxThreads: int, destroyers: nat, es: seq<Event>, j: nat, k: nat) {
    && k < |es|
    && var t := Exec(Step, Initial(maxThreads, destroyers), es[..k]);
       t.Some? && ((es[k] == CheckQuit(j) && t.value.pool.quit) || (es[k] == Destroy(j) && t.value.pool.idle > 0))
  }

  /** With no worker left no task is left either, if the pool may have a worker. */
  lemma EmptyIsDone(s: State)
    requires Inv(s) && s.pool.count == 0 && (s.pool.maxThreads >= 1 || s.pool.queue == [])
    ensures s.pool.queue == [] && forall t :: t in s.submitted ==> t in s.finished
  {
    NobodyLives(s);
    assert forall i :: !LiveAndAwake(s, i);
    assert forall i, t :: !Runs(s, i, t);
  }

  /** A destroyer that is not hurried returns at the mutex with no worker, or after an undisturbed wait. */
  lemma LastStepOfDestroy(maxThreads: int, destroyers: nat, es: seq<Event>, j: nat)
    requires es != [] && Exec(Step, Initial(maxThreads, destroyers), es).Some?
    requires Exec(Step, Initial(maxThreads, destroyers), es[..|es| - 1]).Some?
    requires LetsReturn(Exec(Step, Initial(maxThreads, destroyers), es[..|es| - 1]).value, es[|es| - 1], j)
    requires forall k :: !Hurries(maxThreads, destroyers, es, j, k) && !Disturbs(maxThreads, destroyers, es, j, k)
    ensures var t := Exec(Step, Initial(maxThreads, destroyers), es[..|es| - 1]).value;
      && Step(t, es[|es| - 1]).value.pool == t.pool.(quit := Step(t, es[|es| - 1]).value.pool.quit)
      && t.pool.count <= 0 && (t.destroyers[j] == Awake ==> t.pool.queue == [])
  {
    var before, e := es[..|es| - 1], es[|es| - 1];
    var t := Exec(Step, Initial(maxThreads, destroyers), before).value;
    ReturnIsOwnStep(t, e, j);
    assert !Hurries(maxThreads, destroyers, es, j, |es| - 1);
    if t.destroyers[j] == Awake {
      forall k: nat ensures !Disturbs(maxThreads, destroyers, before, j, k) {
        if Disturbs(maxThreads, destroyers, before, j, k) {
          DisturbedEarlier(maxThreads, destroyers, es, j, k);
        }
      }
      UndisturbedFindsNone(maxThreads, destroyers, before, j);
    }
  }

  /** A whole call of destroy: if it finds neither `quit` set nor a worker idle, and nothing disturbs
      its wait, then at the step that lets it return no worker and no task is left. */
  lemma DestroyCompletes(maxThreads: int, destroyers: nat, es: seq<Event>, j: nat)
    requires es != [] && Exec(Step, Initial(maxThreads, destroyers), es).Some?
    requires Exec(Step, Initial(maxThreads, destroyers), es[..|es| - 1]).Some?
    requires LetsReturn(Exec(Step, Initial(maxThreads, destroyers), es[..|es| - 1]).value, es[|es| - 1], j)
    requires forall k :: !Hurries(maxThreads, destroyers, es, j, k) && !Disturbs(maxThreads, destroyers, es, j, k)
    ensures var s := Exec(Step, Initial(maxThreads, destroyers), es).value;
      && s.pool.count == 0
      && (forall i :: 0 <= i < |s.workers| ==> s.workers[i].Exited?)
      && (maxThreads >= 1 ==> s.pool.queue == [] && forall t :: t in s.submitted ==> t in s.finished)
  {
    var s0 := Initial(maxThreads, destroyers);
    var s := Exec(Step, s0, es).value;
    ExecLast(Step, s0, es);
    LastStepOfDestroy(maxThreads, destroyers, es, j);
    assert ReachablePool(maxThreads, destroyers, s);
    Invariant(maxThreads, destroyers, s);
    NobodyLives(s);
    if maxThreads >= 1 {
      EmptyIsDone(s);
    }
  }

  /** A destroyer waits while a task runs. */
  lemma OneWaiting(maxThreads: int, destroyers: nat) returns (s: State)
    requires destroyers >= 1 && maxThreads >= 1
    ensures ReachablePool(maxThreads, destroyers, s)
    ensures s == State(Pool([], 1, 0, maxThreads, true), [Running(0, false)],
                       seq(destroyers, _ => Outside)[0 := Waiting], [0], [0], {})
  {
    s := OneRunning(maxThreads, destroyers);
    s := Advance(maxThreads, destroyers, s, CheckQuit(0));
    s := Advance(maxThreads, destroyers, s, Destroy(0));
  }

  /** The first way: a second destroyer finds `quit` set while a task runs. */
  lemma ReturnsOnQuit(maxThreads: int, destroyers: nat) returns (s: State)
    requires destroyers >= 2 && maxThreads >= 1
    ensures ReachablePool(maxThreads, destroyers, s) && LetsReturn(s, CheckQuit(1), 1)
    ensures s.pool.idle == 0 && Step(s, CheckQuit(1)).value.pool.count > 0
  {
    s := OneWaiting(maxThreads, destroyers);
  }

  /** The third way, by a spurious wake-up while a task runs. */
  lemma ReturnsOnSpuriousWakeup(maxThreads: int, destroyers: nat) returns (s: State)
    requires destroyers >= 1 && maxThreads >= 1
    ensures ReachablePool(maxThreads, destroyers, s) && LetsReturn(s, DestroyerRelock(0), 0)
    ensures s.pool.idle == 0 && Step(s, DestroyerRelock(0)).value.pool.count > 0
  {
    s := OneWaiting(maxThreads, destroyers);
    s := Advance(maxThreads, destroyers, s, SpuriousDestroyer(0));
  }

  /** The third way, by a task submitted after the last worker's signal, and still queued. */
  lemma ReturnsAfterSubmission(maxThreads: int, destroyers: nat) returns (s: State)
    requires destroyers >= 1 && maxThreads >= 1
    ensures ReachablePool(maxThreads, destroyers, s) && LetsReturn(s, DestroyerRelock(0), 0)
    ensures var s' := Step(s, DestroyerRelock(0)).value; s'.pool.count > 0 && s'.pool.queue != []
  {
    s := OneWaiting(maxThreads, destroyers);
    s := Advance(maxThreads, destroyers, s, RunTask(0));
    assert IsWaiting(s, 0);
    s := Advance(maxThreads, destroyers, s, Finish(0, D(0)));
    s := Advance(maxThreads, destroyers, s, Submit(1, NoOne));
  }

  // ----- Shutdown -----

  function WorkLeft(w: Worker): int {
    match w
    case Exited => 0
    case Ready => 2
    case Woken(_) => 2
    case Asleep => 3
    case Ran(_) => 3
    case Running(_, _) => 4
  }

  function DestroyLeft(d: Destroyer): int {
    match d
    case Returned => 0
    case Awake => 1
    case Waiting => 2
    case Checked => 3
    case Outside => 4
  }

  /** Unfinished tasks, live workers and their positions, in one number. */
  ghost function Measure(s: State): int {
    3 * |s.pool.queue| + Sum(s.workers, WorkLeft) + Sum(s.destroyers, DestroyLeft)
  }

  lemma SignalShrinks(s: State, w: Waiter)
    requires Signalled(s, w).Some?
    ensures Measure(Signalled(s, w).value) <= Measure(s)
  {
    match w
    case NoOne =>
    case W(i) => SumUpdate(s.workers, i, Woken(false), WorkLeft);
    case D(j) => SumUpdate(s.destroyers, j, Awake, DestroyLeft);
  }

  /** After `quit`, with no new submissions, every step makes progress. */
  lemma ShutdownStep(s: State, e: Event)
    requires Inv(s) && s.pool.quit && !e.Submit? && Step(s, e).Some?
    ensures Step(s, e).value.pool.quit
    ensures Measure(Step(s, e).value) < Measure(s)
  {
    var s' := Step(s, e).value;
    if IsDestroyerEvent(e) {
      if s.destroyers[e.j].Checked? && DestroyOutcomeOf(s.pool).Broadcast? {
        BroadcastShrinks(s, e.j);
      } else {
        SumUpdate(s.destroyers, e.j, s'.destroyers[e.j], DestroyLeft);
      }
    } else {
      match s.workers[e.i]
      case Ready => SectionShrinks(s, e.i, Enter(s.pool), false, e.woken);
      case Woken(f) => SectionShrinks(s, e.i, Wake(s.pool, f), f, e.woken);
      case Ran(f) => SectionShrinks(s, e.i, LeaveOrLoop(s.pool, f), f, e.woken);
      case Running(t, f) => SumUpdate(s.workers, e.i, Ran(f), WorkLeft);
      case Asleep => assert IsAsleep(s, e.i);
    }
  }

  lemma SectionShrinks(s: State, i: nat, r: Section, f: bool, w: Waiter)
    requires Inv(s) && s.pool.quit && InSection(s, i, r, f) && AfterSection(s, i, r, f, w).Some?
    ensures AfterSection(s, i, r, f, w).value.pool.quit
    ensures Measure(AfterSection(s, i, r, f, w).value) < Measure(s)
  {
    match r.outcome
    case Take(t) => SumUpdate(s.workers, i, Running(t, f), WorkLeft);
    case Loop => SumUpdate(s.workers, i, Ready, WorkLeft);
    case Leave(signal) =>
      SumUpdate(s.workers, i, Exited, WorkLeft);
      if signal {
        SignalShrinks(s.(pool := r.pool, workers := s.workers[i := Exited]), w);
      }
  }

  lemma BroadcastShrinks(s: State, j: nat)
    requires Inv(s) && s.pool.quit && j < |s.destroyers| && s.destroyers[j] == Checked
    requires DestroyOutcomeOf(s.pool) == Broadcast
    ensures Measure(DestroyerStep(s, j, Destroy(j)).value) < Measure(s)
  {
    var s' := DestroyerStep(s, j, Destroy(j)).value;
    assert forall k :: !IsWaiting(s, k) && !IsAsleep(s, k);
    forall k | 0 <= k < |s.workers| ensures s'.workers[k] == s.workers[k] {
      assert !IsAsleep(s, k);
    }
    assert s'.workers == s.workers;
    forall k | 0 <= k < |s.destroyers| ensures s'.destroyers[k] == s.destroyers[j := Returned][k] {
      assert !IsWaiting(s, k);
    }
    assert s'.destroyers == s.destroyers[j := Returned];
    SumUpdate(s.destroyers, j, Returned, DestroyLeft);
  }

  /** After `quit` no run without submissions is longer than the measure. */
  lemma {:induction false} ShutdownTerminates(maxThreads: int, destroyers: nat, s: State, es: seq<Event>)
    requires ReachablePool(maxThreads, destroyers, s) && s.pool.quit
    requires Exec(Step, s, es).Some? && forall k :: 0 <= k < |es| ==> !es[k].Submit?
    ensures |es| <= Measure(s)
    decreases |es|
  {
    if es == [] {
      SumNonNegative(s.workers, WorkLeft);
      SumNonNegative(s.destroyers, DestroyLeft);
    } else {
      Invariant(maxThreads, destroyers, s);
      ShutdownStep(s, es[0]);
      ReachableStep(Step, Initial(maxThreads, destroyers), s, es[0]);
      ShutdownTerminates(maxThreads, destroyers, Step(s, es[0]).value, es[1..]);
    }
  }

  /** Steps a thread takes by itself: no submission, no timeout, no spurious wakeup. */
  predicate IsOwnStep(e: Event) {
    !e.Submit? && !e.Timeout? && !e.SpuriousWorker? && !e.SpuriousDestroyer?
  }

  /** Where no thread can go on by itself, every task is finished, every worker has exited, and a
      lone destroyer has returned. */
  lemma ShutdownDrains(maxThreads: int, destroyers: nat, s: State)
    requires ReachablePool(maxThreads, destroyers, s) && s.pool.quit && maxThreads >= 1
    requires forall e: Event :: IsOwnStep(e) ==> Step(s, e).None?
    ensures s.pool.queue == [] && s.pool.count == 0
    ensures forall t :: t in s.submitted ==> t in s.finished
    ensures forall i :: 0 <= i < |s.workers| ==> s.workers[i].Exited?
    ensures forall j :: 0 <= j < |s.destroyers| ==> s.destroyers[j].Returned? || (destroyers >= 2 && IsWaiting(s, j))
  {
    Invariant(maxThreads, destroyers, s);
    forall i: nat | i < |s.workers| ensures s.workers[i].Exited? {
      if !s.workers[i].Exited? {
        WorkerCanStep(s, i);
      }
    }
    assert forall i :: !LiveAndAwake(s, i);
    assert Sum(s.workers, Live) == 0 by {
      SumUpperBound(s.workers, Live, 0);
      SumNonNegative(s.workers, Live);
    }
    forall j: nat | j < |s.destroyers|
      ensures s.destroyers[j].Returned? || (destroyers >= 2 && IsWaiting(s, j))
    {
      assert Step(s, CheckQuit(j)).None?;
      assert Step(s, Destroy(j)).None?;
      assert Step(s, DestroyerRelock(j)).None?;
      assert IsWaiting(s, j) || !s.destroyers[j].Waiting?;
    }
  }

  /** Nothing is left: no task, no live worker, and nobody in destroy but those of several
      destroyers whom the one signal did not reach. */
  ghost predicate Drained(s: State) {
    && s.pool.queue == [] && s.pool.count == 0
    && (forall t :: t in s.submitted ==> t in s.finished)
    && (forall i :: 0 <= i < |s.workers| ==> s.workers[i].Exited?)
    && (forall j :: 0 <= j < |s.destroyers| ==> s.destroyers[j].Returned? || (|s.destroyers| >= 2 && IsWaiting(s, j)))
  }

  ghost predicate Maximal(s: State) {
    forall e: Event :: IsOwnStep(e) ==> Step(s, e).None?
  }

  ghost predicate OwnSteps(es: seq<Event>) {
    forall k :: 0 <= k < |es| ==> IsOwnStep(es[k])
  }

  lemma MeasureAtLeastZero(s: State)
    ensures Measure(s) >= 0
  {
    SumNonNegative(s.workers, WorkLeft);
    SumNonNegative(s.destroyers, DestroyLeft);
  }

  lemma {:induction false} QuitStays(maxThreads: int, destroyers: nat, s: State, es: seq<Event>)
    requires ReachablePool(maxThreads, destroyers, s) && s.pool.quit
    requires Exec(Step, s, es).Some? && OwnSteps(es)
    ensures Exec(Step, s, es).value.pool.quit
    decreases |es|
  {
    if es != [] {
      Invariant(maxThreads, destroyers, s);
      ShutdownStep(s, es[0]);
      ReachableStep(Step, Initial(maxThreads, destroyers), s, es[0]);
      QuitStays(maxThreads, destroyers, Step(s, es[0]).value, es[1..]);
    }
  }

  /** The threads by themselves can always bring the shutdown to its end. */
  lemma {:induction false} RunsDown(maxThreads: int, destroyers: nat, s: State) returns (es: seq<Event>)
    requires ReachablePool(maxThreads, destroyers, s) && s.pool.quit && maxThreads >= 1
    ensures OwnSteps(es) && Exec(Step, s, es).Some? && Maximal(Exec(Step, s, es).value)
    decreases Measure(s)
  {
    MeasureAtLeastZero(s);
    if e: Event :| IsOwnStep(e) && Step(s, e).Some? {
      Invariant(maxThreads, destroyers, s);
      ShutdownStep(s, e);
      ReachableStep(Step, Initial(maxThreads, destroyers), s, e);
      MeasureAtLeastZero(Step(s, e).value);
      var rest := RunsDown(maxThreads, destroyers, Step(s, e).value);
      es := [e] + rest;
      assert es[1..] == rest;
    } else {
      es := [];
    }
  }

  lemma MaximalIsDrained(maxThreads: int, destroyers: nat, s: State)
    requires ReachablePool(maxThreads, destroyers, s) && s.pool.quit && maxThreads >= 1 && Maximal(s)
    ensures Drained(s)
  {
    ShutdownDrains(maxThreads, destroyers, s);
    assert |s.destroyers| == destroyers by { Invariant(maxThreads, destroyers, s); }
  }

  /** Shutdown: once `quit` is set, every run of the threads by themselves is bounded by the measure,
      can go on to an end, and ends nowhere but with every task finished and every worker gone. */
  lemma ShutdownCompletes(maxThreads: int, destroyers: nat, s: State, es: seq<Event>) returns (more: seq<Event>)
    requires ReachablePool(maxThreads, destroyers, s) && s.pool.quit && maxThreads >= 1
    requires Exec(Step, s, es).Some? && OwnSteps(es)
    ensures |es| <= Measure(s)
    ensures Maximal(Exec(Step, s, es).value) ==> Drained(Exec(Step, s, es).value)
    ensures OwnSteps(more) && Exec(Step, s, es + more).Some? && Drained(Exec(Step, s, es + more).value)
  {
    var s0, t := Initial(maxThreads, destroyers), Exec(Step, s, es).value;
    ShutdownTerminates(maxThreads, destroyers, s, es);
    QuitStays(maxThreads, destroyers, s, es);
    ReachableRun(Step, s0, s, es);
    if Maximal(t) {
      MaximalIsDrained(maxThreads, destroyers, t);
    }
    more := RunsDown(maxThreads, destroyers, t);
    QuitStays(maxThreads, destroyers, t, more);
    ReachableRun(Step, s0, t, more);
    MaximalIsDrained(maxThreads, destroyers, Exec(Step, t, more).value);
    ExecAppend(Step, s, es, more);
  }

  lemma SomeWaiter(s: State) returns (w: Waiter)
    ensures Signalled(s, w).Some?
  {
    if i: nat :| IsAsleep(s, i) {
      w := W(i);
    } else if j: nat :| IsWaiting(s, j) {
      w := D(j);
    } else {
      w := NoOne;
    }
  }

  /** After `quit`, a live worker can always take its next step. */
  lemma WorkerCanStep(s: State, i: nat)
    requires Inv(s) && s.pool.quit && i < |s.workers| && !s.workers[i].Exited?
    ensures exists e: Event :: IsOwnStep(e) && Step(s, e).Some?
  {
    var gone := s.(workers := s.workers[i := Exited]);
    match s.workers[i]
    case Ready =>
      var r := Enter(s.pool);
      var w := SomeWaiter(gone.(pool := r.pool));
      var e := if r.outcome == Leave(true) then EnterLoop(i, w) else EnterLoop(i, NoOne);
      assert Step(s, e).Some?;
    case Woken(f) =>
      var r := Wake(s.pool, f);
      var w := SomeWaiter(gone.(pool := r.pool));
      var e := if r.outcome == Leave(true) then Relock(i, w) else Relock(i, NoOne);
      assert Step(s, e).Some?;
    case Ran(f) =>
      var r := LeaveOrLoop(s.pool, f);
      var w := SomeWaiter(gone.(pool := r.pool));
      var e := if r.outcome == Leave(true) then Finish(i, w) else Finish(i, NoOne);
      assert Step(s, e).Some?;
    case Running(_, _) =>
      assert Step(s, RunTask(i)).Some?;
    case Asleep =>
      assert IsAsleep(s, i);
  }
}
