// The thread pool as an object that keeps the task queue as the linked list
// `first`/`last`/`next` of the original; its methods are the critical sections.

module PoolObject {
  import opened PoolSections

  class Task {
    const id: nat
    var next: Task?

    constructor (id: nat)
      ensures this.id == id && next == null
    {
      this.id := id;
      next := null;
    }
  }

  function Ids(nodes: seq<Task>): seq<nat> {
    seq(|nodes|, i requires 0 <= i < |nodes| => nodes[i].id)
  }

  class ThreadPool {
    var first: Task?
    var last: Task?
    var count: int
    var idle: int
    const maxThreads: int
    var quit: bool
    ghost var nodes: seq<Task>

    /** The list that starts at `first` is `nodes`, and `last` is its end. */
    ghost predicate Valid()
      reads this, nodes
    {
      && (nodes == [] ==> first == null && last == null)
      && (nodes != [] ==> first == nodes[0] && last == nodes[|nodes| - 1] && nodes[|nodes| - 1].next == null)
      && (forall i, j :: 0 <= i < j < |nodes| ==> nodes[i] != nodes[j])
      && (forall i :: 0 <= i < |nodes| - 1 ==> nodes[i].next == nodes[i + 1])
    }

    ghost function View(): Pool
      reads this
    {
      Pool(Ids(nodes), count, idle, maxThreads, quit)
    }

    constructor (maxThreads: int)
      ensures Valid() && nodes == []
      ensures View() == EMPTY.(maxThreads := maxThreads)
    {
      first, last := null, null;
      count, idle, quit := 0, 0, false;
      this.maxThreads := maxThreads;
      nodes := [];
    }

    method AddTask(id: nat) returns (task: Task, outcome: AddOutcome)
      requires Valid()
      modifies this, nodes
      ensures Valid() && fresh(task) && task.id == id && nodes == old(nodes) + [task]
      ensures View() == Added(old(View()), id)
      ensures outcome == AddOutcomeOf(old(View()))
    {
      task := new Task(id);
      if first == null {
        first := task;
      } else {
        last.next := task;
      }
      last := task;
      nodes := nodes + [task];
      outcome := Nothing;
      if idle > 0 {
        outcome := Signal;
      } else if idle == 0 && count < maxThreads {
        outcome := Spawn;
        count := count + 1;
      }
    }

    /** Unlinks the head of the list. */
    method TakeFirst() returns (task: Task)
      requires Valid() && nodes != []
      modifies this
      ensures Valid() && task == old(nodes)[0] && nodes == old(nodes)[1..]
      ensures View() == old(View()).(queue := old(View()).queue[1..])
    {
      task := first;
      if first == last {
        first, last := null, null;
      } else {
        first := first.next;
      }
      nodes := nodes[1..];
    }

    method LeaveOrLoop(timedOut: bool) returns (outcome: Outcome)
      requires Valid()
      modifies this
      ensures Valid() && nodes == old(nodes)
      ensures Section(View(), outcome) == PoolSections.LeaveOrLoop(old(View()), timedOut)
    {
      if quit && first == null {
        count := count - 1;
        return Leave(count == 0);
      }
      if timedOut && first == null {
        count := count - 1;
        return Leave(count == 0);
      }
      outcome := Loop;
    }

    method TakeOrLeave(timedOut: bool) returns (outcome: Outcome)
      requires Valid()
      modifies this
      ensures Valid()
      ensures Section(View(), outcome) == PoolSections.TakeOrLeave(old(View()), timedOut)
    {
      idle := idle - 1;
      if first != null {
        var task := TakeFirst();
        return Take(task.id);
      }
      outcome := LeaveOrLoop(timedOut);
    }

    method Enter() returns (outcome: Outcome)
      requires Valid()
      modifies this
      ensures Valid()
      ensures Section(View(), outcome) == PoolSections.Enter(old(View()))
    {
      idle := idle + 1;
      if first == null && !quit {
        return Sleep;
      }
      outcome := TakeOrLeave(false);
    }

    method Wake(timedOut: bool) returns (outcome: Outcome)
      requires Valid()
      modifies this
      ensures Valid()
      ensures Section(View(), outcome) == PoolSections.Wake(old(View()), timedOut)
    {
      if !timedOut && first == null && !quit {
        return Sleep;
      }
      outcome := TakeOrLeave(timedOut);
    }

    method Destroy() returns (outcome: DestroyOutcome)
      requires Valid()
      modifies this
      ensures Valid() && nodes == old(nodes)
      ensures View() == old(View()).(quit := true)
      ensures outcome == DestroyOutcomeOf(old(View()))
    {
      quit := true;
      outcome := Return;
      if count > 0 {
        outcome := if idle > 0 then Broadcast else Wait;
      }
    }
  }
}
