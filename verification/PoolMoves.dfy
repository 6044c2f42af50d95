// What each thread of the pool does at each of its steps, told by the states of the threads and the
// counters alone, and what the pool can be brought to.

module PoolMoves {
  import opened Machines
  import opened Sums
  import opened PoolSections
  import opened PoolRuns

  // ----- A worker's critical section -----

  /** Worker `i` locks the mutex: at the head of its loop, after its wait, or after its task. */
  predicate Locks(e: Event, i: nat) {
    (e.EnterLoop? || e.Relock? || e.Finish?) && e.i == i
  }

  /** Its last wait has timed out. */
  predicate TimedOut(w: Worker) { w == Woken(true) || w == Ran(true) }

  /** It has nothing to do, and a reason to leave. */
  predicate MayLeave(s: State, i: nat)
    requires i < |s.workers|
  {
    s.pool.queue == [] && (s.pool.quit || TimedOut(s.workers[i]))
  }

  /** It has waited, or tested the wait condition, and there is a task. */
  predicate MayTake(s: State, i: nat)
    requires i < |s.workers|
  {
    s.pool.queue != [] && !s.workers[i].Ran?
  }

  /** It goes into its wait, for the first time or again. */
  predicate MaySleep(s: State, i: nat)
    requires i < |s.workers|
  {
    s.pool.queue == [] && !s.pool.quit && (s.workers[i].Ready? || s.workers[i] == Woken(false))
  }

  /** The worker after its critical section. */
  ghost predicate Moved(s: State, s': State, i: nat)
    requires i < |s.workers| && i < |s'.workers|
  {
    var w' := s'.workers[i];
    && (w'.Exited? <==> MayLeave(s, i))
    && (w'.Running? <==> MayTake(s, i))
    && (w'.Asleep? <==> MaySleep(s, i))
    && (w'.Ready? <==> s.workers[i].Ran? && !MayLeave(s, i))
    && (MayTake(s, i) ==> w' == Running(s.pool.queue[0], TimedOut(s.workers[i])))
  }

  /** What it leaves behind the mutex. */
  ghost predicate Leaves(s: State, s': State, i: nat)
    requires i < |s.workers|
  {
    && s'.pool.queue == (if MayTake(s, i) then s.pool.queue[1..] else s.pool.queue)
    && s'.started == (if MayTake(s, i) then s.started + [s.pool.queue[0]] else s.started)
    && s'.pool.count == (if MayLeave(s, i) then s.pool.count - 1 else s.pool.count)
    && s'.pool.quit == s.pool.quit && s'.submitted == s.submitted && s'.finished == s.finished
  }

  lemma SectionMoves(s: State, e: Event, i: nat)
    requires Step(s, e).Some? && i < |s.workers| && Locks(e, i)
    ensures i < |Step(s, e).value.workers|
    ensures Moved(s, Step(s, e).value, i) && Leaves(s, Step(s, e).value, i)
  {}

  /** In every run a worker that locks the mutex takes the oldest task if there is one and it has not
      just run one; else it leaves exactly when `quit` is set or its wait has timed out; else it
      sleeps, or begins its loop again. Only a worker that leaves makes `count` smaller, by one. */
  lemma WorkerMoves(maxThreads: int, destroyers: nat, s: State, e: Event, i: nat)
    requires ReachablePool(maxThreads, destroyers, s) && Step(s, e).Some? && i < |s.workers| && Locks(e, i)
    ensures |Step(s, e).value.workers| == |s.workers|
    ensures Moved(s, Step(s, e).value, i) && Leaves(s, Step(s, e).value, i)
    ensures forall k :: 0 <= k < |s.workers| && k != i ==> Step(s, e).value.workers[k] == s.workers[k]
    ensures Step(s, e).value.destroyers != s.destroyers ==> Step(s, e).value.pool.count == 0
  {
    assert Inv(s) by { Invariant(maxThreads, destroyers, s); }
    assert Inv(Step(s, e).value) by { StepKeeps(s, e); }
    SectionMoves(s, e, i);
    OthersStay(s, e, i);
  }

  /** The other workers stay, but for one that the last worker's signal may wake. */
  lemma OthersOrWoken(s: State, e: Event, i: nat)
    requires Step(s, e).Some? && i < |s.workers| && Locks(e, i)
    ensures |Step(s, e).value.workers| == |s.workers|
    ensures forall k :: 0 <= k < |s.workers| && k != i ==>
      var w := Step(s, e).value.workers[k]; w == s.workers[k] || (w.Woken? && Step(s, e).value.pool.count == 0)
    ensures Step(s, e).value.destroyers != s.destroyers ==> Step(s, e).value.pool.count == 0
  {}

  /** With no worker left there is none to wake. */
  lemma OthersStay(s: State, e: Event, i: nat)
    requires Step(s, e).Some? && Inv(Step(s, e).value) && i < |s.workers| && Locks(e, i)
    ensures |Step(s, e).value.workers| == |s.workers|
    ensures forall k :: 0 <= k < |s.workers| && k != i ==> Step(s, e).value.workers[k] == s.workers[k]
    ensures Step(s, e).value.destroyers != s.destroyers ==> Step(s, e).value.pool.count == 0
  {
    OthersOrWoken(s, e, i);
    if Step(s, e).value.pool.count == 0 {
      NobodyLives(Step(s, e).value);
    }
  }

  /** In every run a worker exits at a step exactly when it locks the mutex there with no task queued
      and `quit` set or its wait timed out; then `count` falls by one. */
  lemma ExitsExactlyWhen(maxThreads: int, destroyers: nat, s: State, e: Event, i: nat)
    requires ReachablePool(maxThreads, destroyers, s) && Step(s, e).Some?
    requires i < |s.workers| && !s.workers[i].Exited?
    ensures i < |Step(s, e).value.workers|
    ensures Step(s, e).value.workers[i].Exited?
       <==> Locks(e, i) && s.pool.queue == [] && (s.pool.quit || TimedOut(s.workers[i]))
    ensures Step(s, e).value.workers[i].Exited? ==> Step(s, e).value.pool.count == s.pool.count - 1
  {
    if e.EnterLoop? || e.Relock? || e.Finish? {
      WorkerMoves(maxThreads, destroyers, s, e, e.i);
    } else if e.Submit? {
      SubmissionKeepsWorker(s, e, i);
    } else if IsDestroyerEvent(e) {
      DestroyerKeepsWorker(s, e, i);
    }
  }

  lemma SubmissionKeepsWorker(s: State, e: Event, i: nat)
    requires e.Submit? && Step(s, e).Some? && i < |s.workers| && !s.workers[i].Exited?
    ensures i < |Step(s, e).value.workers| && !Step(s, e).value.workers[i].Exited?
  {}

  lemma DestroyerKeepsWorker(s: State, e: Event, i: nat)
    requires IsDestroyerEvent(e) && Step(s, e).Some? && i < |s.workers| && !s.workers[i].Exited?
    ensures i < |Step(s, e).value.workers| && !Step(s, e).value.workers[i].Exited?
  {}

  /** A worker leaves although nobody destroys the pool: its wait has timed out. */
  lemma TimedOutWorkerLeaves(maxThreads: int, destroyers: nat) returns (s: State)
    requires maxThreads >= 1
    ensures ReachablePool(maxThreads, destroyers, s)
    ensures s.workers == [Exited] && s.pool == Pool([], 0, 0, maxThreads, false)
  {
    s := OneAsleep(maxThreads, destroyers);
    s := Advance(maxThreads, destroyers, s, Timeout(0));
    assert s.workers == [Woken(true)] && s.pool == Pool([], 1, 1, maxThreads, false);
    s := LastLeaves(maxThreads, destroyers, s);
  }

  /** A lone worker whose wait has timed out, with nobody to signal. */
  lemma LastLeaves(maxThreads: int, destroyers: nat, s: State) returns (s': State)
    requires ReachablePool(maxThreads, destroyers, s)
    requires s.workers == [Woken(true)] && s.pool == Pool([], 1, 1, maxThreads, false)
    ensures ReachablePool(maxThreads, destroyers, s')
    ensures s'.workers == [Exited] && s'.pool == Pool([], 0, 0, maxThreads, false)
  {
    assert forall j :: !IsWaiting(s, j) by { Invariant(maxThreads, destroyers, s); }
    var t := s.(workers := [Exited], pool := s.pool.(count := 0, idle := 0));
    assert forall i :: !IsAsleep(t, i);
    assert forall j :: IsWaiting(t, j) <==> IsWaiting(s, j);
    assert s.workers[0 := Exited] == [Exited];
    assert Step(s, Relock(0, NoOne)) == Some(t);
    s' := Advance(maxThreads, destroyers, s, Relock(0, NoOne));
  }

  // ----- Submission -----

  /** In every run a submission appends its task, and starts a thread exactly when no worker is idle and
      there are fewer than `max_threads`; else there are as many as before. */
  lemma GrowsExactlyWhen(maxThreads: int, destroyers: nat, s: State, task: nat, w: Waiter)
    requires ReachablePool(maxThreads, destroyers, s) && Step(s, Submit(task, w)).Some?
    ensures var s', more := Step(s, Submit(task, w)).value, if s.pool.idle == 0 && s.pool.count < maxThreads then 1 else 0;
      && s'.pool == s.pool.(queue := s.pool.queue + [task], count := s.pool.count + more)
      && |s'.workers| == |s.workers| + more && (more == 1 ==> s'.workers == s.workers + [Ready])
      && s'.submitted == s.submitted + [task] && s'.started == s.started && s'.finished == s.finished
      && s'.destroyers == s.destroyers
  {
    Invariant(maxThreads, destroyers, s);
    assert Counters(s) && Sleepers(s);
    assert s.pool.idle > 0 ==> forall j :: !IsWaiting(s, j);
    assert w.D? ==> (IsWaiting(Queued(s, task), w.j) <==> IsWaiting(s, w.j));
  }

  /** With a worker idle it wakes one that sleeps, if there is one, unless a worker whose wait has timed
      out takes the signal; nobody else changes. */
  lemma WakesOne(maxThreads: int, destroyers: nat, s: State, task: nat, w: Waiter)
    requires ReachablePool(maxThreads, destroyers, s) && Step(s, Submit(task, w)).Some? && s.pool.idle > 0
    ensures var s' := Step(s, Submit(task, w)).value;
      if w.W? then IsAsleep(s, w.i) && s'.workers == s.workers[w.i := Woken(false)]
      else s'.workers == s.workers && ((forall i :: !IsAsleep(s, i)) || exists i :: IsTimedOut(s, i))
  {
    assert Sleepers(s) && s.pool.idle > 0 by { Invariant(maxThreads, destroyers, s); }
    assert forall j :: !IsWaiting(s, j);
    assert forall i :: IsTimedOut(Queued(s, task), i) <==> IsTimedOut(s, i);
    assert forall i :: IsAsleep(Queued(s, task), i) <==> IsAsleep(s, i);
    assert forall j :: IsWaiting(Queued(s, task), j) <==> IsWaiting(s, j);
  }

  function RunningAll(n: nat): seq<Worker> { seq(n, k requires 0 <= k < n => Running(k, false)) }

  function Numbers(n: nat): seq<nat> { seq(n, k requires 0 <= k < n => k) }

  /** The pool can run as many tasks at once as it may have threads. */
  lemma {:induction false} AllRunAtOnce(maxThreads: int, destroyers: nat, n: nat) returns (s: State)
    requires n <= maxThreads
    ensures ReachablePool(maxThreads, destroyers, s)
    ensures s == State(Pool([], n, 0, maxThreads, false), RunningAll(n), seq(destroyers, _ => Outside), Numbers(n), Numbers(n), {})
    decreases n
  {
    if n == 0 {
      s := Initial(maxThreads, destroyers);
      ReachableStart(Step, s);
    } else {
      var t := AllRunAtOnce(maxThreads, destroyers, n - 1);
      s := Advance(maxThreads, destroyers, t, Submit(n - 1, NoOne));
      assert s.workers[n - 1] == Ready;
      s := Advance(maxThreads, destroyers, s, EnterLoop(n - 1, NoOne));
      assert s.workers == RunningAll(n - 1) + [Running(n - 1, false)] == RunningAll(n);
      assert s.submitted == Numbers(n - 1) + [n - 1] == Numbers(n);
    }
  }

  // ----- Destroying -----

  /** The destroyer has set `quit`, or found it set. */
  predicate Past(d: Destroyer) { d.Waiting? || d.Awake? || d.Returned? }

  ghost predicate QuitOk(s: State) {
    s.pool.quit <==> exists j: nat :: j < |s.destroyers| && Past(s.destroyers[j])
  }

  /** In every run `quit` is set exactly when some thread has got so far in destroy. */
  lemma QuitMeansDestroy(maxThreads: int, destroyers: nat, s: State)
    requires ReachablePool(maxThreads, destroyers, s)
    ensures s.pool.quit <==> exists j: nat :: j < |s.destroyers| && Past(s.destroyers[j])
  {
    var inv := (s: State) => QuitOk(s);
    assert Inductive(Step, inv) by {
      forall s, e | inv(s) && Step(s, e).Some? ensures inv(Step(s, e).value) {
        QuitStep(s, e);
      }
    }
    Invariance(Step, inv, Initial(maxThreads, destroyers), s);
  }

  /** A destroyer is past at most at its own step, which sets `quit` or finds it set. */
  lemma DestroyerPast(s: State, e: Event)
    requires Step(s, e).Some? && IsDestroyerEvent(e)
    ensures e.j < |s.destroyers| == |Step(s, e).value.destroyers|
    ensures var s' := Step(s, e).value;
      && (forall j: nat :: j < |s.destroyers| && j != e.j ==> (Past(s'.destroyers[j]) <==> Past(s.destroyers[j])))
      && (Past(s.destroyers[e.j]) ==> Past(s'.destroyers[e.j]))
      && s'.pool.quit == (s.pool.quit || (Past(s'.destroyers[e.j]) && s.destroyers[e.j] == Checked))
      && (Past(s'.destroyers[e.j]) ==> Past(s.destroyers[e.j]) || s'.pool.quit)
  {}

  lemma OthersPast(s: State, e: Event)
    requires Step(s, e).Some? && !IsDestroyerEvent(e)
    ensures |s.destroyers| == |Step(s, e).value.destroyers| && Step(s, e).value.pool.quit == s.pool.quit
    ensures forall j: nat :: j < |s.destroyers| ==> (Past(Step(s, e).value.destroyers[j]) <==> Past(s.destroyers[j]))
  {}

  lemma QuitStep(s: State, e: Event)
    requires QuitOk(s) && Step(s, e).Some?
    ensures QuitOk(Step(s, e).value)
  {
    if IsDestroyerEvent(e) {
      DestroyerPast(s, e);
    } else {
      OthersPast(s, e);
    }
    var s' := Step(s, e).value;
    if j: nat :| j < |s.destroyers| && Past(s.destroyers[j]) {
      assert Past(s'.destroyers[j]);
    }
  }

  /** The mutex taken in destroy: `quit` is set and the counters stay; the caller waits exactly when there
      are workers and none is idle, and returns otherwise; with an idle worker, all that sleep are woken. */
  lemma DestroyMoves(maxThreads: int, destroyers: nat, s: State, j: nat)
    requires ReachablePool(maxThreads, destroyers, s) && Step(s, Destroy(j)).Some?
    ensures j < |s.destroyers| == |Step(s, Destroy(j)).value.destroyers|
    ensures var s' := Step(s, Destroy(j)).value;
      && s'.pool == s.pool.(quit := true)
      && s'.destroyers[j] == (if s.pool.count > 0 && s.pool.idle == 0 then Waiting else Returned)
      && |s'.workers| == |s.workers|
      && (forall i :: 0 <= i < |s.workers| ==> s'.workers[i] == if s.workers[i].Asleep? then Woken(false) else s.workers[i])
      && s'.submitted == s.submitted && s'.started == s.started && s'.finished == s.finished
  {
    assert Counters(s) by { Invariant(maxThreads, destroyers, s); }
    StepFrame(s, Destroy(j));
    if s.pool.idle == 0 {
      NobodySleeps(s);
      forall i | 0 <= i < |s.workers| ensures !s.workers[i].Asleep? {
        assert !IsAsleep(s, i);
      }
    }
  }
}
