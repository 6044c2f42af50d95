// The producer and consumer threads around one mutex and one condition variable.

module Monitor {
  import opened Machines
  import opened Sums

  /** A consumer is outside its critical section, asleep on the condition, or woken and waiting
      to lock the mutex again. */
  datatype Phase = Outside | Asleep | Woken

  datatype State = State(total: int, phases: seq<Phase>, produced: nat, consumed: nat)

  /** Events are critical sections: from locking the mutex to unlocking it or going to sleep. */
  datatype Event = Produce(woken: set<nat>) | Enter(i: nat) | Relock(i: nat) | Spurious(i: nat)

  function Initial(consumers: nat): State {
    State(0, seq(consumers, _ => Outside), 0, 0)
  }

  predicate AsleepAt(phases: seq<Phase>, i: nat) { i < |phases| && phases[i] == Asleep }

  /** pthread_cond_signal wakes at least one sleeper, if there is one. */
  ghost predicate MayWake(phases: seq<Phase>, woken: set<nat>) {
    && (forall i :: i in woken ==> AsleepAt(phases, i))
    && ((exists i :: AsleepAt(phases, i)) ==> woken != {})
  }

  function WakeAll(phases: seq<Phase>, woken: set<nat>): seq<Phase> {
    seq(|phases|, i requires 0 <= i < |phases| => if i in woken then Woken else phases[i])
  }

  /** A consumer holding the mutex: it takes a product, or finds none and sleeps. */
  function Take(s: State, i: nat): State
    requires i < |s.phases|
  {
    if s.total == 0 then s.(phases := s.phases[i := Asleep])
    else s.(total := s.total - 1, consumed := s.consumed + 1, phases := s.phases[i := Outside])
  }

  ghost function Step(s: State, e: Event): Option<State> {
    match e
    case Produce(woken) =>
      if !MayWake(s.phases, woken) then None
      else Some(s.(total := s.total + 1, produced := s.produced + 1, phases := WakeAll(s.phases, woken)))
    case Enter(i) => if i < |s.phases| && s.phases[i] == Outside then Some(Take(s, i)) else None
    case Relock(i) => if i < |s.phases| && s.phases[i] == Woken then Some(Take(s, i)) else None
    case Spurious(i) => if AsleepAt(s.phases, i) then Some(s.(phases := s.phases[i := Woken])) else None
  }

  // ----- The invariant -----

  function IsWoken(p: Phase): int { if p == Woken then 1 else 0 }

  /** Consumers that have been woken but have not locked the mutex again. */
  function WokenCount(s: State): int { Sum(s.phases, IsWoken) }

  ghost predicate Inv(s: State) {
    && s.total == s.produced - s.consumed && s.total >= 0
    && ((exists i :: AsleepAt(s.phases, i)) ==> s.total <= WokenCount(s))
  }

  lemma ProduceKeeps(s: State, woken: set<nat>)
    requires Inv(s) && Step(s, Produce(woken)).Some?
    ensures Inv(Step(s, Produce(woken)).value)
  {
    var s' := Step(s, Produce(woken)).value;
    if i :| AsleepAt(s'.phases, i) {
      assert AsleepAt(s.phases, i);
      var j :| j in woken;
      assert AsleepAt(s.phases, j);
      SumGrows(s.phases, s'.phases, IsWoken, j);
    }
  }

  lemma TakeKeeps(s: State, i: nat)
    requires Inv(s) && i < |s.phases| && s.phases[i] != Asleep
    ensures Inv(Take(s, i))
  {
    var s' := Take(s, i);
    SumUpdate(s.phases, i, s'.phases[i], IsWoken);
    SumNonNegative(s'.phases, IsWoken);
    if j :| AsleepAt(s'.phases, j) {
      assert s.total > 0 ==> AsleepAt(s.phases, j);
    }
  }

  lemma StepKeeps(s: State, e: Event)
    requires Inv(s) && Step(s, e).Some?
    ensures Inv(Step(s, e).value)
  {
    match e
    case Produce(woken) => ProduceKeeps(s, woken);
    case Enter(i) => TakeKeeps(s, i);
    case Relock(i) => TakeKeeps(s, i);
    case Spurious(i) => SumUpdate(s.phases, i, Woken, IsWoken);
  }

  ghost predicate ReachableMonitor(consumers: nat, s: State) {
    Reachable(Step, Initial(consumers), s)
  }

  /** In every run, spurious wake-ups included, `total` is what has been produced and not consumed,
      and while any consumer sleeps there are no more products than consumers already woken for
      them: no wake-up is lost. */
  lemma NoLostWakeup(consumers: nat, s: State)
    requires ReachableMonitor(consumers, s)
    ensures 0 <= s.total == s.produced - s.consumed
    ensures (exists i :: AsleepAt(s.phases, i)) ==> s.total <= WokenCount(s)
  {
    var inv := (s: State) => Inv(s);
    assert Inductive(Step, inv) by {
      forall s, e | inv(s) && Step(s, e).Some? ensures inv(Step(s, e).value) {
        StepKeeps(s, e);
      }
    }
    assert Inv(Initial(consumers)) by {
      assert forall i :: !AsleepAt(Initial(consumers).phases, i);
    }
    Invariance(Step, inv, Initial(consumers), s);
  }

  /** Consumer `i` locks the mutex, to enter or after its wait. */
  predicate Locks(e: Event, i: nat) { e == Enter(i) || e == Relock(i) }

  /** In every run a consumer goes to sleep exactly when it locks the mutex and finds no product, and
      sleeps until it is woken; each producing step adds one product, and each consumer that finds one
      takes one. */
  lemma SleepsExactlyWhen(consumers: nat, s: State, e: Event, i: nat)
    requires ReachableMonitor(consumers, s) && Step(s, e).Some? && i < |s.phases|
    ensures |Step(s, e).value.phases| == |s.phases|
    ensures var s' := Step(s, e).value;
      && (s'.phases[i] == Asleep <==>
            (Locks(e, i) && s.total == 0)
            || (s.phases[i] == Asleep && e != Spurious(i) && !(e.Produce? && i in e.woken)))
      && (Locks(e, i) ==> s'.phases[i] == if s.total == 0 then Asleep else Outside)
      && (Locks(e, i) ==> s'.total == if s.total == 0 then 0 else s.total - 1)
      && (e.Produce? ==> s'.total == s.total + 1)
    ensures e.Produce? && s.phases[i] == Asleep ==> exists j: nat :: AsleepAt(s.phases, j) && j in e.woken
  {
    NoLostWakeup(consumers, s);
    if e.Produce? && s.phases[i] == Asleep {
      assert AsleepAt(s.phases, i);
      var j :| j in e.woken;
    }
  }

  // ----- Products are consumed without further production -----

  predicate Consumes(e: Event) { e.Enter? || e.Relock? }

  /** With a product in store, some consumer that is awake can take it. */
  lemma SomeoneTakes(s: State) returns (e: Event)
    requires Inv(s) && s.total > 0 && s.phases != []
    ensures Consumes(e) && Step(s, e).Some? && Step(s, e).value.total == s.total - 1
  {
    if AsleepAt(s.phases, 0) {
      var i := SumPositiveElement(s.phases, IsWoken);
      e := Relock(i);
    } else if s.phases[0] == Woken {
      e := Relock(0);
    } else {
      e := Enter(0);
    }
  }

  lemma {:induction false} StoreDrains(s: State) returns (es: seq<Event>)
    requires Inv(s) && s.phases != []
    ensures Exec(Step, s, es).Some? && Exec(Step, s, es).value.total == 0
    ensures |es| == s.total && forall e :: e in es ==> Consumes(e)
    decreases s.total
  {
    if s.total == 0 {
      es := [];
    } else {
      var e := SomeoneTakes(s);
      StepKeeps(s, e);
      var rest := StoreDrains(Step(s, e).value);
      es := [e] + rest;
      assert es[1..] == rest;
    }
  }

  /** From any point of any run the whole store can be consumed by the consumers that are awake:
      as many consuming steps as there are products, no production, no spurious wake-up. */
  lemma NoStrandedProduct(consumers: nat, s: State) returns (es: seq<Event>)
    requires ReachableMonitor(consumers, s) && s.phases != []
    ensures Exec(Step, s, es).Some? && Exec(Step, s, es).value.total == 0
    ensures |es| == s.total && forall e :: e in es ==> Consumes(e)
  {
    NoLostWakeup(consumers, s);
    es := StoreDrains(s);
  }

  // ----- The program -----

  /** The shared variable, the threads' phases and two counters of what has happened. */
  class Store {
    var total: int
    var phases: seq<Phase>
    var produced: nat
    var consumed: nat

    ghost function View(): State
      reads this
    {
      State(total, phases, produced, consumed)
    }

    constructor (consumers: nat)
      ensures View() == Initial(consumers)
    {
      total, phases, produced, consumed := 0, seq(consumers, _ => Outside), 0, 0;
    }

    /** Lines 87 to 97 of cond-produce-consume.c. */
    method Produce(woken: set<nat>)
      requires MayWake(phases, woken)
      modifies this
      ensures Some(View()) == Step(old(View()), Event.Produce(woken))
    {
      total := total + 1;
      produced := produced + 1;
      phases := WakeAll(phases, woken);
    }

    /** Lines 51 to 65, from locking the mutex or returning from the wait: false if the consumer
        goes to sleep. */
    method Consume(i: nat) returns (taken: bool)
      requires i < |phases| && phases[i] != Asleep
      modifies this
      ensures Some(View()) == Step(old(View()), if old(phases[i]) == Outside then Enter(i) else Relock(i))
      ensures taken == (old(total) != 0)
    {
      if total == 0 {
        phases := phases[i := Asleep];
        return false;
      }
      total := total - 1;
      consumed := consumed + 1;
      phases := phases[i := Outside];
      taken := true;
    }
  }
}
