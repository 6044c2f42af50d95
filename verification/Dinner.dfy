// The dining philosophers, any number of them, on one set of System V semaphores.

module Dinner {
  import opened Machines
  import opened Sums
  import opened Arith

  datatype SemBuf = SemBuf(num: nat, op: int)

  /** semop: all the operations are done, in order, or none is and the caller sleeps (None). */
  function SemOp(sems: seq<int>, ops: seq<SemBuf>): Option<seq<int>>
    decreases |ops|
  {
    if ops == [] then Some(sems)
    else if ops[0].num >= |sems| || sems[ops[0].num] + ops[0].op < 0 then None
    else SemOp(sems[ops[0].num := sems[ops[0].num] + ops[0].op], ops[1..])
  }

  datatype State = State(forks: seq<int>, eating: seq<bool>)

  datatype Event = WaitForForks(no: nat) | ReturnForks(no: nat)

  function Right(no: nat, n: nat): nat
    requires n > 0
  {
    (no + 1) % n
  }

  function Both(no: nat, n: nat, op: int): seq<SemBuf>
    requires n > 0
  {
    [SemBuf(no, op), SemBuf(Right(no, n), op)]
  }

  function Step(s: State, e: Event): Option<State> {
    var n := |s.eating|;
    if e.no >= n || s.eating[e.no] != e.ReturnForks? then None
    else match SemOp(s.forks, Both(e.no, n, if e.WaitForForks? then -1 else 1))
      case None => None
      case Some(forks) => Some(State(forks, s.eating[e.no := e.WaitForForks?]))
  }

  function Initial(n: nat): State {
    State(seq(n, _ => 1), seq(n, _ => false))
  }

  // ----- The invariant -----

  function Eats(b: bool): int { if b then 1 else 0 }

  function Value(v: int): int { v }

  /** The philosopher whose right fork `f` is. */
  function LeftOf(f: nat, n: nat): nat
    requires f < n
  {
    if f == 0 then n - 1 else f - 1
  }

  ghost predicate ForkIs(s: State, f: nat)
    requires f < |s.forks| == |s.eating|
  {
    s.forks[f] == 1 - Eats(s.eating[f]) - Eats(s.eating[LeftOf(f, |s.eating|)])
  }

  ghost predicate Inv(s: State) {
    && |s.forks| == |s.eating|
    && (forall f :: 0 <= f < |s.forks| ==> s.forks[f] >= 0 && ForkIs(s, f))
    && Sum(s.forks, Value) == |s.forks| - 2 * Sum(s.eating, Eats)
  }

  lemma RightIs(no: nat, n: nat)
    requires no < n
    ensures Right(no, n) == if no == n - 1 then 0 else no + 1
    ensures Right(no, n) < n && LeftOf(Right(no, n), n) == no
    ensures forall f :: 0 <= f < n && LeftOf(f, n) == no ==> f == Right(no, n)
  {
    if no == n - 1 {
      DivModUnique(no + 1, n, 1, 0);
    } else {
      DivModUnique(no + 1, n, 0, no + 1);
    }
  }

  function Moved(forks: seq<int>, i: nat, op: int): seq<int>
    requires i < |forks|
  {
    forks[i := forks[i] + op]
  }

  /** semop on both forks: possible unless a fork would fall below zero, and then it moves both. */
  lemma BothForks(forks: seq<int>, no: nat, op: int)
    requires no < |forks|
    ensures Right(no, |forks|) < |forks|
    ensures var mid, right := Moved(forks, no, op), Right(no, |forks|);
      SemOp(forks, Both(no, |forks|, op)) ==
        if mid[no] < 0 || mid[right] + op < 0 then None else Some(Moved(mid, right, op))
  {
    RightIs(no, |forks|);
    var ops, mid, right := Both(no, |forks|, op), Moved(forks, no, op), Right(no, |forks|);
    assert ops[1..] == [SemBuf(right, op)];
    assert SemOp(forks, ops) == if mid[no] < 0 then None else SemOp(mid, ops[1..]);
    assert ops[1..][1..] == [];
    assert SemOp(Moved(mid, right, op), []) == Some(Moved(mid, right, op));
  }

  /** The change of a step: one philosopher, and the two forks by the same amount. */
  lemma StepMoves(s: State, e: Event)
    requires |s.forks| == |s.eating| && Step(s, e).Some?
    ensures e.no < |s.eating| && s.eating[e.no] == e.ReturnForks? && Right(e.no, |s.eating|) < |s.eating|
    ensures var s', op := Step(s, e).value, if e.WaitForForks? then -1 else 1;
      && var mid := Moved(s.forks, e.no, op);
      && mid[e.no] >= 0 && mid[Right(e.no, |s.eating|)] + op >= 0
      && s' == State(Moved(mid, Right(e.no, |s.eating|), op), s.eating[e.no := !s.eating[e.no]])
  {
    BothForks(s.forks, e.no, if e.WaitForForks? then -1 else 1);
  }

  lemma ForksKeep(s: State, e: Event)
    requires Inv(s) && Step(s, e).Some?
    ensures var s' := Step(s, e).value;
      |s'.forks| == |s'.eating| && forall f :: 0 <= f < |s'.forks| ==> s'.forks[f] >= 0 && ForkIs(s', f)
  {
    StepMoves(s, e);
    var s', n, right := Step(s, e).value, |s.eating|, Right(e.no, |s.eating|);
    RightIs(e.no, n);
    forall f | 0 <= f < n ensures s'.forks[f] >= 0 && ForkIs(s', f) {
      assert ForkIs(s, f);
      assert LeftOf(f, n) == e.no <==> f == right;
    }
  }

  lemma SumMoved(forks: seq<int>, i: nat, op: int)
    requires i < |forks|
    ensures Sum(Moved(forks, i, op), Value) == Sum(forks, Value) + op
  {
    var v := forks[i] + op;
    assert Value(v) == Value(forks[i]) + op;
    SumUpdate(forks, i, v, Value);
    assert Moved(forks, i, op) == forks[i := v];
  }

  lemma StepKeeps(s: State, e: Event)
    requires Inv(s) && Step(s, e).Some?
    ensures Inv(Step(s, e).value)
  {
    ForksKeep(s, e);
    StepMoves(s, e);
    var op := if e.WaitForForks? then -1 else 1;
    SumMoved(s.forks, e.no, op);
    SumMoved(Moved(s.forks, e.no, op), Right(e.no, |s.eating|), op);
    SumUpdate(s.eating, e.no, !s.eating[e.no], Eats);
  }

  ghost predicate ReachableDinner(n: nat, s: State) {
    Reachable(Step, Initial(n), s)
  }

  lemma InitialInv(n: nat)
    ensures Inv(Initial(n))
    decreases n
  {
    var s := Initial(n);
    if n > 0 {
      InitialInv(n - 1);
      assert s.forks[..n - 1] == Initial(n - 1).forks && s.eating[..n - 1] == Initial(n - 1).eating;
    }
  }

  lemma Invariant(n: nat, s: State)
    requires ReachableDinner(n, s)
    ensures Inv(s) && |s.eating| == n
  {
    var inv := (s: State) => Inv(s) && |s.eating| == n;
    assert Inductive(Step, inv) by {
      forall s, e | inv(s) && Step(s, e).Some? ensures inv(Step(s, e).value) {
        StepKeeps(s, e);
      }
    }
    InitialInv(n);
    Invariance(Step, inv, Initial(n), s);
  }

  // ----- What holds of every run -----

  /** Each fork is 1 less its eating users, so neighbours never eat together. */
  lemma NeighboursNeverEat(n: nat, s: State, i: nat)
    requires ReachableDinner(n, s) && i < n
    ensures |s.forks| == |s.eating| == n && Right(i, n) < n
    ensures s.forks[Right(i, n)] == 1 - Eats(s.eating[i]) - Eats(s.eating[Right(i, n)])
    ensures !(s.eating[i] && s.eating[Right(i, n)])
  {
    Invariant(n, s);
    RightIs(i, n);
    assert ForkIs(s, Right(i, n));
  }

  lemma AtMostHalf(n: nat, s: State)
    requires ReachableDinner(n, s)
    ensures Sum(s.eating, Eats) <= n / 2
  {
    Invariant(n, s);
    SumNonNegative(s.forks, Value);
  }

  /** Philosophers 0, 2, ..., 2k - 2 eat and the others do not. */
  ghost predicate EvenEat(s: State, k: nat) {
    forall i :: 0 <= i < |s.eating| ==> s.eating[i] == (i % 2 == 0 && i < 2 * k)
  }

  lemma NextCanEat(n: nat, s: State, k: nat)
    requires 0 < k <= n / 2 && ReachableDinner(n, s) && EvenEat(s, k - 1)
    ensures |s.eating| == n && Step(s, WaitForForks(2 * k - 2)).Some?
    ensures Step(s, WaitForForks(2 * k - 2)).value.eating == s.eating[2 * k - 2 := true]
  {
    Invariant(n, s);
    WaitsForNeighbours(n, s, 2 * k - 2);
    RightIs(2 * k - 2, n);
  }

  lemma OneMore(s: State, s': State, k: nat)
    requires k > 0 && EvenEat(s, k - 1) && 2 * k - 2 < |s.eating| && s'.eating == s.eating[2 * k - 2 := true]
    ensures EvenEat(s', k) && !s.eating[2 * k - 2]
  {}

  /** The bound is reached for every number of philosophers. */
  lemma {:induction false} HalfCanEat(n: nat, k: nat) returns (s: State)
    requires k <= n / 2
    ensures ReachableDinner(n, s) && Sum(s.eating, Eats) == k && EvenEat(s, k)
    decreases k
  {
    if k == 0 {
      s := Initial(n);
      ReachableStart(Step, s);
      SumUpperBound(s.eating, Eats, 0);
      SumNonNegative(s.eating, Eats);
    } else {
      var t := HalfCanEat(n, k - 1);
      var no := 2 * k - 2;
      Invariant(n, t);
      NextCanEat(n, t, k);
      ReachableStep(Step, Initial(n), t, WaitForForks(no));
      s := Step(t, WaitForForks(no)).value;
      SumUpdate(t.eating, no, true, Eats);
      OneMore(t, s, k);
    }
  }

  /** A philosopher who is not eating gets the forks at once exactly when neither neighbour is
      eating; a lone philosopher never does. */
  lemma WaitsForNeighbours(n: nat, s: State, i: nat)
    requires ReachableDinner(n, s) && i < |s.eating| && !s.eating[i]
    ensures |s.eating| == n
    ensures Step(s, WaitForForks(i)).Some? <==> n >= 2 && !s.eating[LeftOf(i, n)] && !s.eating[Right(i, n)]
  {
    Invariant(n, s);
    RightIs(i, n);
    assert ForkIs(s, i) && ForkIs(s, Right(i, n));
    BothForks(s.forks, i, -1);
  }

  lemma AlwaysReturns(s: State, i: nat)
    requires Inv(s) && i < |s.eating| && s.eating[i]
    ensures Step(s, ReturnForks(i)).Some?
  {
    BothForks(s.forks, i, 1);
    RightIs(i, |s.eating|);
    assert s.forks[i] >= 0 && s.forks[Right(i, |s.eating|)] >= 0;
  }

  ghost predicate Deadlock(s: State) { forall e :: Step(s, e).None? }

  /** No run ends in deadlock exactly when there are at least two philosophers. */
  lemma NoDeadlock(n: nat)
    ensures (forall s :: ReachableDinner(n, s) ==> !Deadlock(s)) <==> n >= 2
  {
    if n >= 2 {
      forall s | ReachableDinner(n, s) ensures !Deadlock(s) {
        Invariant(n, s);
        if i :| 0 <= i < n && s.eating[i] {
          AlwaysReturns(s, i);
        } else {
          WaitsForNeighbours(n, s, 0);
          RightIs(0, n);
          assert Step(s, WaitForForks(0)).Some?;
        }
      }
    } else {
      var s := Initial(n);
      ReachableStart(Step, s);
      if n == 1 {
        WaitsForNeighbours(n, s, 0);
      }
      assert Deadlock(s);
    }
  }

  // ----- The program -----

  /** The semaphore set and which philosophers are at their meal. */
  class Table {
    var sems: seq<int>
    var eating: seq<bool>

    ghost function View(): State
      reads this
    {
      State(sems, eating)
    }

    /** Lines 101 to 113 of dinner.c. */
    constructor (n: nat)
      ensures View() == Initial(n)
    {
      eating := seq(n, _ => false);
      var vals := [];
      for i := 0 to n
        invariant vals == seq(i, _ => 1)
      {
        vals := vals + [1];
      }
      sems := vals;
    }

    /** semop; false where the caller would sleep. */
    method Operate(ops: seq<SemBuf>) returns (done: bool)
      modifies this`sems
      ensures SemOp(old(sems), ops) == if done then Some(sems) else None
      ensures !done ==> sems == old(sems)
    {
      var vals := sems;
      var k := 0;
      while k < |ops|
        invariant k <= |ops| && SemOp(sems, ops) == SemOp(vals, ops[k..])
      {
        if ops[k].num >= |vals| || vals[ops[k].num] + ops[k].op < 0 {
          return false;
        }
        assert ops[k..][1..] == ops[k + 1..];
        vals := vals[ops[k].num := vals[ops[k].num] + ops[k].op];
        k := k + 1;
      }
      sems := vals;
      done := true;
    }

    /** Lines 35 to 49. */
    method WaitForForks(no: nat) returns (done: bool)
      requires no < |eating| && !eating[no]
      modifies this
      ensures Step(old(View()), Event.WaitForForks(no)) == if done then Some(View()) else None
      ensures !done ==> View() == old(View())
    {
      var left, right := no, (no + 1) % |eating|;
      done := Operate([SemBuf(left, -1), SemBuf(right, -1)]);
      if done {
        eating := eating[no := true];
      }
    }

    /** Lines 54 to 68. */
    method ReturnForks(no: nat) returns (done: bool)
      requires no < |eating| && eating[no]
      modifies this
      ensures Step(old(View()), Event.ReturnForks(no)) == if done then Some(View()) else None
      ensures !done ==> View() == old(View())
    {
      var left, right := no, (no + 1) % |eating|;
      done := Operate([SemBuf(left, 1), SemBuf(right, 1)]);
      if done {
        eating := eating[no := false];
      }
    }
  }
}
