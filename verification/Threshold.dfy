// The producer and consumer threads that check a threshold without a lock before each batch.

module Threshold {
  import opened Machines
  import opened Sums

  const INITIAL := 500
  const ENOUGH := 100      // producers act below it
  const PLENTY := 50       // consumers act above it
  const PUTS := 30
  const GETS := 5

  /** What is left of the batch a thread is in; 0 when it is about to check the threshold. */
  datatype State = State(size: int, producers: seq<nat>, consumers: seq<nat>, checked: bool)

  datatype Event = MayPut(i: nat) | Put(i: nat) | MayGet(i: nat) | Get(i: nat)

  function Zeros(n: nat): seq<nat> { seq(n, _ => 0) }

  function Initial(producers: nat, consumers: nat): State {
    State(INITIAL, Zeros(producers), Zeros(consumers), false)
  }

  /** `checked` records whether a producer's check has ever passed. A put never blocks; a get on
      an empty queue does. */
  function Step(s: State, e: Event): Option<State> {
    match e
    case MayPut(i) =>
      if i >= |s.producers| || s.producers[i] > 0 then None
      else if s.size < ENOUGH then Some(s.(producers := s.producers[i := PUTS], checked := true))
      else Some(s)
    case Put(i) =>
      if i >= |s.producers| || s.producers[i] == 0 then None
      else Some(s.(size := s.size + 1, producers := s.producers[i := s.producers[i] - 1]))
    case MayGet(i) =>
      if i >= |s.consumers| || s.consumers[i] > 0 then None
      else if s.size > PLENTY then Some(s.(consumers := s.consumers[i := GETS]))
      else Some(s)
    case Get(i) =>
      if i >= |s.consumers| || s.consumers[i] == 0 || s.size <= 0 then None
      else Some(s.(size := s.size - 1, consumers := s.consumers[i := s.consumers[i] - 1]))
  }

  // ----- The invariant -----

  function Left(k: nat): int { k }

  /** Puts and gets that threads are committed to but have not done. */
  function Puts(s: State): int { Sum(s.producers, Left) }

  function Gets(s: State): int { Sum(s.consumers, Left) }

  ghost predicate Upper(s: State) {
    && (forall i :: 0 <= i < |s.producers| ==> s.producers[i] <= PUTS)
    && (if s.checked then s.size + Puts(s) <= ENOUGH - 1 + PUTS * |s.producers|
        else Puts(s) == 0 && s.size <= INITIAL)
  }

  ghost predicate Lower(s: State) {
    && (forall i :: 0 <= i < |s.consumers| ==> s.consumers[i] <= GETS)
    && s.size - Gets(s) >= PLENTY + 1 - GETS * |s.consumers|
    && s.size >= 0
  }

  /** One thread's share changes from `b[i]` to `k`; a share is at most `most`. */
  lemma Share(b: seq<nat>, i: nat, k: nat, most: nat)
    requires i < |b| && forall j :: 0 <= j < |b| ==> b[j] <= most
    ensures Sum(b[i := k], Left) == Sum(b, Left) - b[i] + k
    ensures 0 <= b[i] <= Sum(b, Left) <= most * |b|
    ensures k <= most ==> Sum(b[i := k], Left) <= most * |b|
  {
    SumUpdate(b, i, k, Left);
    SumBoundsElement(b, i, Left);
    SumUpperBound(b, Left, most);
    if k <= most {
      SumUpperBound(b[i := k], Left, most);
    }
  }

  lemma UpperKept(s: State, e: Event)
    requires Upper(s) && Step(s, e).Some?
    ensures Upper(Step(s, e).value)
  {
    if e.MayPut? {
      Share(s.producers, e.i, PUTS, PUTS);
    } else if e.Put? {
      Share(s.producers, e.i, s.producers[e.i] - 1, PUTS);
    }
  }

  lemma LowerKept(s: State, e: Event)
    requires Lower(s) && Step(s, e).Some?
    ensures Lower(Step(s, e).value)
  {
    if e.MayGet? {
      Share(s.consumers, e.i, GETS, GETS);
    } else if e.Get? {
      Share(s.consumers, e.i, s.consumers[e.i] - 1, GETS);
    }
  }

  ghost predicate ReachableKitchen(producers: nat, consumers: nat, s: State) {
    Reachable(Step, Initial(producers, consumers), s)
  }

  ghost predicate Inv(producers: nat, consumers: nat, s: State) {
    Upper(s) && Lower(s) && |s.producers| == producers && |s.consumers| == consumers
  }

  lemma Idle(n: nat)
    ensures Sum(Zeros(n), Left) == 0
  {
    SumNonNegative(Zeros(n), Left);
    SumUpperBound(Zeros(n), Left, 0);
  }

  lemma Invariant(producers: nat, consumers: nat, s: State)
    requires ReachableKitchen(producers, consumers, s)
    ensures Inv(producers, consumers, s)
  {
    var s0, inv := Initial(producers, consumers), (s: State) => Inv(producers, consumers, s);
    assert Inductive(Step, inv) by {
      forall s, e | inv(s) && Step(s, e).Some? ensures inv(Step(s, e).value) {
        UpperKept(s, e);
        LowerKept(s, e);
      }
    }
    Idle(producers);
    Idle(consumers);
    Invariance(Step, inv, s0, s);
  }

  // ----- What holds of every run -----

  /** Without any lock the queue, together with the puts still to come, stays under its bound. */
  lemma NeverOverfull(producers: nat, consumers: nat, s: State)
    requires ReachableKitchen(producers, consumers, s)
    ensures s.size + Puts(s) <= if s.checked then 99 + 30 * producers else 500
    ensures 0 <= Puts(s)
  {
    Invariant(producers, consumers, s);
    SumNonNegative(s.producers, Left);
  }

  /** And, less the gets still to come, over its own. */
  lemma NeverUnderfull(producers: nat, consumers: nat, s: State)
    requires ReachableKitchen(producers, consumers, s)
    ensures s.size - Gets(s) >= 51 - 5 * consumers
    ensures 0 <= Gets(s)
  {
    Invariant(producers, consumers, s);
    SumNonNegative(s.consumers, Left);
  }

  /** Consumer `i` waits inside a get for a queue that is empty. */
  predicate Blocked(s: State, i: nat) {
    i < |s.consumers| && s.consumers[i] > 0 && s.size <= 0
  }

  /** No get ever blocks exactly when there are at most ten consumers, or eleven and no producer
      to disturb the batches of five. */
  lemma NoGetBlocks(producers: nat, consumers: nat)
    ensures (forall s, i: nat :: ReachableKitchen(producers, consumers, s) ==> !Blocked(s, i))
      <==> consumers <= 10 || (consumers == 11 && producers == 0)
  {
    if consumers <= 10 {
      forall s, i: nat | ReachableKitchen(producers, consumers, s) ensures !Blocked(s, i) {
        NeverUnderfull(producers, consumers, s);
        if i < |s.consumers| {
          Invariant(producers, consumers, s);
          Share(s.consumers, i, 0, GETS);
        }
      }
    } else if consumers == 11 && producers == 0 {
      forall s, i: nat | ReachableKitchen(producers, consumers, s) ensures !Blocked(s, i) {
        BatchesOfFive(s);
        if i < |s.consumers| {
          Invariant(producers, consumers, s);
          Share(s.consumers, i, 0, GETS);
        }
      }
    } else {
      var s := Starved(producers, consumers);
    }
  }

  // ----- Eleven consumers alone -----

  ghost predicate Fives(s: State) {
    && s.producers == [] && |s.consumers| == 11 && Lower(s)
    && exists k :: s.size - Gets(s) == GETS * k
  }

  lemma FivesKept(s: State, e: Event)
    requires Fives(s) && Step(s, e).Some?
    ensures Fives(Step(s, e).value)
  {
    LowerKept(s, e);
    var s' := Step(s, e).value;
    var k :| s.size - Gets(s) == GETS * k;
    if e.MayGet? {
      Share(s.consumers, e.i, GETS, GETS);
      assert s'.size - Gets(s') == GETS * (if s.size > PLENTY then k - 1 else k);
    } else if e.Get? {
      Share(s.consumers, e.i, s.consumers[e.i] - 1, GETS);
      assert s'.size - Gets(s') == GETS * k;
    }
  }

  lemma BatchesOfFive(s: State)
    requires ReachableKitchen(0, 11, s)
    ensures s.size - Gets(s) >= 0
  {
    var s0, inv := Initial(0, 11), (s: State) => Fives(s);
    assert Inductive(Step, inv) by {
      forall s, e | inv(s) && Step(s, e).Some? ensures inv(Step(s, e).value) {
        FivesKept(s, e);
      }
    }
    Idle(11);
    assert s0.size - Gets(s0) == GETS * 100;
    Invariance(Step, inv, s0, s);
  }

  // ----- A run in which a get blocks -----

  /** `k` gets of consumer `i`. */
  lemma {:induction false} GetMany(s0: State, s: State, i: nat, k: nat) returns (s': State)
    requires Reachable(Step, s0, s) && i < |s.consumers| && k <= s.consumers[i] && k <= s.size
    ensures Reachable(Step, s0, s')
    ensures s' == s.(size := s.size - k, consumers := s.consumers[i := s.consumers[i] - k])
    decreases k
  {
    if k == 0 {
      s' := s;
    } else {
      ReachableStep(Step, s0, s, Get(i));
      s' := GetMany(s0, Step(s, Get(i)).value, i, k - 1);
    }
  }

  /** Consumer 0 alone takes `k` batches. */
  lemma {:induction false} EatDown(s0: State, s: State, k: nat) returns (s': State)
    requires Reachable(Step, s0, s) && s.consumers != [] && s.consumers[0] == 0
    requires k > 0 ==> s.size - GETS * (k - 1) > PLENTY
    ensures Reachable(Step, s0, s') && s' == s.(size := s.size - GETS * k)
    decreases k
  {
    if k == 0 {
      s' := s;
    } else {
      ReachableStep(Step, s0, s, MayGet(0));
      var t := GetMany(s0, Step(s, MayGet(0)).value, 0, GETS);
      assert t.consumers == s.consumers;
      s' := EatDown(s0, t, k - 1);
    }
  }

  ghost predicate Committed(s: State, from: nat, to: nat) {
    to <= |s.consumers| && forall i :: from <= i < to ==> s.consumers[i] == GETS
  }

  /** Consumers 0 to `k` - 1 pass their check at the same size. */
  lemma {:induction false} AllCommit(s0: State, s: State, k: nat) returns (s': State)
    requires Reachable(Step, s0, s) && s.size > PLENTY && k <= |s.consumers|
    requires forall i :: 0 <= i < |s.consumers| ==> s.consumers[i] == 0
    ensures Reachable(Step, s0, s') && Committed(s', 0, k)
    ensures s'.size == s.size && |s'.consumers| == |s.consumers|
    ensures forall i :: k <= i < |s.consumers| ==> s'.consumers[i] == 0
    decreases k
  {
    if k == 0 {
      s' := s;
    } else {
      var t := AllCommit(s0, s, k - 1);
      ReachableStep(Step, s0, t, MayGet(k - 1));
      s' := Step(t, MayGet(k - 1)).value;
    }
  }

  /** The first `k` of `n` committed consumers take their batches. */
  lemma {:induction false} BatchesTaken(s0: State, s: State, k: nat, n: nat) returns (s': State)
    requires Reachable(Step, s0, s) && Committed(s, 0, n) && k <= n && s.size >= GETS * k
    ensures Reachable(Step, s0, s') && Committed(s', k, n) && s'.size == s.size - GETS * k
    decreases k
  {
    if k == 0 {
      s' := s;
    } else {
      var t := BatchesTaken(s0, s, k - 1, n);
      s' := GetMany(s0, t, k - 1, GETS);
    }
  }

  /** With more consumers committed than the queue has batches, one of them starves. */
  lemma SomeoneStarves(s0: State, s: State, k: nat, rest: nat) returns (s': State)
    requires Reachable(Step, s0, s) && s.size > PLENTY && s.size == GETS * k + rest && rest < GETS
    requires k < |s.consumers| && forall i :: 0 <= i < |s.consumers| ==> s.consumers[i] == 0
    ensures Reachable(Step, s0, s') && Blocked(s', k)
  {
    var t := AllCommit(s0, s, k + 1);
    var u := BatchesTaken(s0, t, k, k + 1);
    s' := GetMany(s0, u, k, rest);
  }

  lemma Starved(producers: nat, consumers: nat) returns (s: State)
    requires consumers > 11 || (consumers == 11 && producers > 0)
    ensures ReachableKitchen(producers, consumers, s) && exists i: nat :: Blocked(s, i)
  {
    var s0 := Initial(producers, consumers);
    ReachableStart(Step, s0);
    if consumers > 11 {
      var t := EatDown(s0, s0, 89);
      s := SomeoneStarves(s0, t, 11, 0);
    } else {
      var t := EatDown(s0, s0, 90);
      ReachableStep(Step, s0, t, MayPut(0));
      var u := Step(t, MayPut(0)).value;
      ReachableStep(Step, s0, u, Put(0));
      s := SomeoneStarves(s0, Step(u, Put(0)).value, 10, 1);
    }
  }

  // ----- The upper bound is reached -----

  lemma {:induction false} AllMayPut(s0: State, s: State, k: nat) returns (s': State)
    requires Reachable(Step, s0, s) && s.size < ENOUGH && k <= |s.producers|
    requires forall i :: 0 <= i < |s.producers| ==> s.producers[i] == 0
    ensures Reachable(Step, s0, s') && s'.size == s.size && |s'.producers| == |s.producers|
    ensures forall i :: 0 <= i < |s.producers| ==> s'.producers[i] == if i < k then PUTS else 0
    decreases k
  {
    if k == 0 {
      s' := s;
    } else {
      var t := AllMayPut(s0, s, k - 1);
      ReachableStep(Step, s0, t, MayPut(k - 1));
      s' := Step(t, MayPut(k - 1)).value;
    }
  }

  lemma {:induction false} PutMany(s0: State, s: State, i: nat, k: nat) returns (s': State)
    requires Reachable(Step, s0, s) && i < |s.producers| && k <= s.producers[i]
    ensures Reachable(Step, s0, s')
    ensures s' == s.(size := s.size + k, producers := s.producers[i := s.producers[i] - k])
    decreases k
  {
    if k == 0 {
      s' := s;
    } else {
      ReachableStep(Step, s0, s, Put(i));
      s' := PutMany(s0, Step(s, Put(i)).value, i, k - 1);
    }
  }

  lemma {:induction false} AllPut(s0: State, s: State, k: nat) returns (s': State)
    requires Reachable(Step, s0, s) && k <= |s.producers|
    requires forall i :: 0 <= i < |s.producers| ==> s.producers[i] == PUTS
    ensures Reachable(Step, s0, s') && s'.size == s.size + PUTS * k && |s'.producers| == |s.producers|
    ensures forall i :: k <= i < |s.producers| ==> s'.producers[i] == PUTS
    decreases k
  {
    if k == 0 {
      s' := s;
    } else {
      var t := AllPut(s0, s, k - 1);
      s' := PutMany(s0, t, k - 1, PUTS);
    }
  }

  /** Some run fills the queue to its bound: no smaller bound holds. */
  lemma FilledToTheBound(producers: nat, consumers: nat) returns (s: State)
    requires consumers > 0
    ensures ReachableKitchen(producers, consumers, s) && s.size == 99 + 30 * producers
  {
    var s0 := Initial(producers, consumers);
    ReachableStart(Step, s0);
    var t := EatDown(s0, s0, 80);
    ReachableStep(Step, s0, t, MayGet(0));
    var u := GetMany(s0, Step(t, MayGet(0)).value, 0, 1);
    var v := AllMayPut(s0, u, producers);
    s := AllPut(s0, v, producers);
  }

  // ----- And so is the lower one -----

  lemma AllCommitted(s: State, k: nat)
    requires k <= |s.consumers| && Committed(s, 0, k)
    requires forall i :: k <= i < |s.consumers| ==> s.consumers[i] == 0
    ensures Gets(s) == 5 * k
    decreases |s.consumers|
  {
    if s.consumers == [] {
    } else {
      var n := |s.consumers| - 1;
      AllCommitted(s.(consumers := s.consumers[..n]), if k > n then n else k);
    }
  }

  /** With a producer to put one item on top of fifty, all consumers can check at 51. */
  lemma EmptiedToTheBound(producers: nat, consumers: nat) returns (s: State)
    requires producers > 0 && consumers > 0
    ensures ReachableKitchen(producers, consumers, s) && s.size - Gets(s) == 51 - 5 * consumers
  {
    var s0 := Initial(producers, consumers);
    ReachableStart(Step, s0);
    var t := EatDown(s0, s0, 90);
    ReachableStep(Step, s0, t, MayPut(0));
    var u := Step(t, MayPut(0)).value;
    ReachableStep(Step, s0, u, Put(0));
    s := AllCommit(s0, Step(u, Put(0)).value, consumers);
    AllCommitted(s, consumers);
  }

  // ----- The program -----

  /** The queue and the threads' places in their batches. */
  class Kitchen {
    var size: int
    var producers: seq<nat>
    var consumers: seq<nat>
    var checked: bool

    ghost function View(): State
      reads this
    {
      State(size, producers, consumers, checked)
    }

    /** Lines 34 to 46 of producer_consumer.py. */
    constructor (producers: nat, consumers: nat)
      ensures View() == Initial(producers, consumers) && size == 500
    {
      this.producers, this.consumers := Zeros(producers), Zeros(consumers);
      size, checked := INITIAL, false;
    }

    /** The events of an undisturbed turn of producer `i`. */
    static ghost function Production(i: nat, k: nat): seq<Event> { seq(k, _ => Put(i)) }

    static lemma {:induction false} OnePutMore(s: State, i: nat, k: nat)
      requires Exec(Step, s, Production(i, k)).Some?
      ensures Exec(Step, s, Production(i, k + 1)) == Step(Exec(Step, s, Production(i, k)).value, Put(i))
    {
      assert Production(i, k + 1) == Production(i, k) + [Put(i)];
      ExecAppend(Step, s, Production(i, k), [Put(i)]);
      assert [Put(i)][1..] == [];
    }

    /** Lines 18 to 22: one turn of a producer's loop while no other thread runs. */
    method Produce(i: nat)
      requires i < |producers| && producers[i] == 0
      modifies this
      ensures var s := Step(old(View()), MayPut(i));
        s.Some? && Exec(Step, s.value, Production(i, s.value.producers[i])) == Some(View())
      ensures size == old(size) + if old(size) < 100 then 30 else 0
    {
      if size < ENOUGH {
        producers := producers[i := PUTS];
        checked := true;
        ghost var s := View();
        for k := 0 to PUTS
          invariant i < |producers| && producers[i] == PUTS - k && size == s.size + k
          invariant Exec(Step, s, Production(i, k)) == Some(View())
        {
          OnePutMore(s, i, k);
          size := size + 1;
          producers := producers[i := producers[i] - 1];
        }
      }
    }

    static ghost function Consumption(i: nat, k: nat): seq<Event> { seq(k, _ => Get(i)) }

    static lemma {:induction false} OneGetMore(s: State, i: nat, k: nat)
      requires Exec(Step, s, Consumption(i, k)).Some?
      ensures Exec(Step, s, Consumption(i, k + 1)) == Step(Exec(Step, s, Consumption(i, k)).value, Get(i))
    {
      assert Consumption(i, k + 1) == Consumption(i, k) + [Get(i)];
      ExecAppend(Step, s, Consumption(i, k), [Get(i)]);
      assert [Get(i)][1..] == [];
    }

    /** Lines 27 to 32: one turn of a consumer's loop while no other thread runs. */
    method Consume(i: nat)
      requires i < |consumers| && consumers[i] == 0
      modifies this
      ensures var s := Step(old(View()), MayGet(i));
        s.Some? && Exec(Step, s.value, Consumption(i, s.value.consumers[i])) == Some(View())
      ensures size == old(size) - if old(size) > 50 then 5 else 0
    {
      if size > PLENTY {
        consumers := consumers[i := GETS];
        ghost var s := View();
        for k := 0 to GETS
          invariant i < |consumers| && consumers[i] == GETS - k && size == s.size - k
          invariant Exec(Step, s, Consumption(i, k)) == Some(View())
        {
          OneGetMore(s, i, k);
          size := size - 1;
          consumers := consumers[i := consumers[i] - 1];
        }
      }
    }
  }
}
