// The critical sections of the thread pool, as functions on the data the mutex protects.

/** One function per critical section: what a thread does between locking the mutex
    and giving it up, either by unlocking or by waiting on the condition. */
module PoolSections {

  datatype Pool = Pool(queue: seq<nat>, count: int, idle: int, maxThreads: int, quit: bool)

  /** How a worker's critical section ends: asleep on the condition, unlocked with a
      task to run, unlocked for good (`signal` when it was the last), or back at the
      head of its loop. */
  datatype Outcome = Sleep | Take(task: nat) | Leave(signal: bool) | Loop

  datatype Section = Section(pool: Pool, outcome: Outcome)

  /** The tail of the worker's loop body. */
  function LeaveOrLoop(p: Pool, timedOut: bool): Section {
    if (p.quit || timedOut) && p.queue == [] then
      Section(p.(count := p.count - 1), Leave(p.count - 1 == 0))
    else
      Section(p, Loop)
  }

  /** From the end of the wait loop: take the first task, or go on to the tail. */
  function TakeOrLeave(p: Pool, timedOut: bool): Section {
    var p := p.(idle := p.idle - 1);
    if p.queue != [] then Section(p.(queue := p.queue[1..]), Take(p.queue[0]))
    else LeaveOrLoop(p, timedOut)
  }

  /** The test of the wait loop. */
  function WaitLoop(p: Pool): Section {
    if p.queue == [] && !p.quit then Section(p, Sleep) else TakeOrLeave(p, false)
  }

  /** A worker locks the mutex at the head of its loop. */
  function Enter(p: Pool): Section {
    WaitLoop(p.(idle := p.idle + 1))
  }

  /** A worker has the mutex back from its timed wait. */
  function Wake(p: Pool, timedOut: bool): Section {
    if timedOut then TakeOrLeave(p, true) else WaitLoop(p)
  }

  datatype AddOutcome = Signal | Spawn | Nothing

  function AddOutcomeOf(p: Pool): AddOutcome {
    if p.idle > 0 then Signal
    else if p.idle == 0 && p.count < p.maxThreads then Spawn
    else Nothing
  }

  function Added(p: Pool, task: nat): Pool {
    p.(queue := p.queue + [task], count := if AddOutcomeOf(p) == Spawn then p.count + 1 else p.count)
  }

  datatype DestroyOutcome = Broadcast | Wait | Return

  function DestroyOutcomeOf(p: Pool): DestroyOutcome {
    if p.count > 0 then (if p.idle > 0 then Broadcast else Wait) else Return
  }

  const EMPTY := Pool([], 0, 0, 0, false)
}
