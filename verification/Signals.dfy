// Counting in turns: parent and child pass the turn to each other by signals.

module Signals {
  import opened Machines

  /** Where a process is in its endless loop: about to test `flag`, to send the signal, or to
      clear `flag`. */
  datatype Loop = Test | Kill | Clear

  /** Where it is in its signal handler, which interrupts the loop. */
  datatype Handler = Idle | Print | Add | Set

  /** `n` and `flag` are separate copies in each process; `pending` is the one pending bit of the
      signal the process handles. */
  datatype Process = Process(n: int, flag: bool, loop: Loop, handler: Handler, pending: bool)

  datatype Who = Parent | Child

  /** `printed` is what the two processes have printed, in order, and who printed it. */
  datatype State = State(parent: Process, child: Process, printed: seq<(Who, int)>)

  function Other(w: Who): Who { if w == Parent then Child else Parent }

  function Of(s: State, w: Who): Process { if w == Parent then s.parent else s.child }

  function With(s: State, w: Who, p: Process): State {
    if w == Parent then s.(parent := p) else s.(child := p)
  }

  /** After the fork, with the child's handler registered, the parent calls its handler. */
  function Initial(): State {
    State(Process(1, false, Test, Print, false), Process(2, false, Test, Idle, false), [])
  }

  /** A process either takes delivery of its pending signal or goes on with what it was doing. */
  datatype Event = Deliver(w: Who) | Continue(w: Who)

  function InHandler(s: State, w: Who): State
    requires Of(s, w).handler != Idle
  {
    var p := Of(s, w);
    match p.handler
    case Print => With(s, w, p.(handler := Add)).(printed := s.printed + [(w, p.n)])
    case Add => With(s, w, p.(n := p.n + 2, handler := Set))
    case _ => With(s, w, p.(flag := true, handler := Idle))
  }

  function InLoop(s: State, w: Who): State {
    var p := Of(s, w);
    match p.loop
    case Test => With(s, w, p.(loop := if p.flag then Kill else Test))
    case Kill =>
      var q := Of(s, Other(w));
      With(With(s, w, p.(loop := Clear)), Other(w), q.(pending := true))
    case Clear => With(s, w, p.(flag := false, loop := Test))
  }

  /** A signal is blocked while its handler runs. */
  function Step(s: State, e: Event): Option<State> {
    var p := Of(s, e.w);
    match e
    case Deliver(w) =>
      if !p.pending || p.handler != Idle then None
      else Some(With(s, w, p.(pending := false, handler := Print)))
    case Continue(w) => Some(if p.handler != Idle then InHandler(s, w) else InLoop(s, w))
  }

  // ----- The turn -----

  /** The ways a process can have the turn: it has still to print, or it has printed and has
      still to add to its number, or it has still to pass the turn on. */
  predicate ToPrint(p: Process) { p.pending || p.handler == Print }

  predicate ToAdd(p: Process) { p.handler == Add }

  predicate ToPass(p: Process) {
    p.handler == Set || (p.handler == Idle && (p.loop == Kill || (p.loop == Test && p.flag)))
  }

  predicate HasTurn(p: Process) { ToPrint(p) || ToAdd(p) || ToPass(p) }

  /** No process has the turn twice, nor do both have it. */
  predicate OneTurn(s: State) {
    && !(HasTurn(s.parent) && HasTurn(s.child))
    && Once(s.parent) && Once(s.child)
  }

  predicate Once(p: Process) {
    && (p.pending ==> p.handler == Idle && !ToPass(p))
    && (p.loop == Kill ==> p.flag && p.handler == Idle)
    && (p.handler != Idle && p.loop == Test ==> !p.flag)
  }

  predicate TurnLost(s: State) { !HasTurn(s.parent) && !HasTurn(s.child) }

  /** What the processes' numbers are when `p` has the turn, `q` has not, and `k` numbers have been
      printed. */
  predicate Numbers(p: Process, q: Process, k: int) {
    && (ToPrint(p) ==> p.n == k + 1 && q.n == k + 2)
    && (ToAdd(p) ==> p.n == k && q.n == k + 1)
    && (ToPass(p) ==> p.n == k + 2 && q.n == k + 1)
  }

  /** 1, 2, 3, ... and alternately from the parent and the child. */
  ghost predicate Counted(printed: seq<(Who, int)>) {
    forall i :: 0 <= i < |printed| ==> printed[i] == (if i % 2 == 0 then Parent else Child, i + 1)
  }

  /** The parent has the turn to print odd numbers. */
  predicate Parity(s: State) {
    var k := |s.printed|;
    && (ToPrint(s.parent) || ToAdd(s.child) || ToPass(s.child) ==> k % 2 == 0)
    && (ToPrint(s.child) || ToAdd(s.parent) || ToPass(s.parent) ==> k % 2 == 1)
  }

  ghost predicate Inv(s: State) { TurnOk(s) && Counted(s.printed) }

  /** All of the invariant but what has been printed. */
  predicate TurnOk(s: State) {
    && OneTurn(s)
    && Numbers(s.parent, s.child, |s.printed|) && Numbers(s.child, s.parent, |s.printed|)
    && Parity(s)
  }

  lemma DeliverKeeps(s: State, w: Who)
    requires TurnOk(s) && Step(s, Deliver(w)).Some?
    ensures TurnOk(Step(s, Deliver(w)).value)
  {}

  lemma HandlerKeeps(s: State, w: Who)
    requires TurnOk(s) && Of(s, w).handler != Idle
    ensures TurnOk(InHandler(s, w))
  {
    if w == Parent {
    } else {
    }
  }

  lemma LoopKeeps(s: State, w: Who)
    requires TurnOk(s) && Of(s, w).handler == Idle
    ensures TurnOk(InLoop(s, w))
  {
    if w == Parent {
    } else {
    }
  }

  /** Whoever prints continues the count. */
  lemma PrintsNext(s: State, e: Event)
    requires TurnOk(s) && Counted(s.printed) && Step(s, e).Some?
    ensures Counted(Step(s, e).value.printed)
  {
    var p, k := Of(s, e.w), |s.printed|;
    if e.Continue? && p.handler == Print {
      assert ToPrint(p);
      assert (e.w, p.n) == (if k % 2 == 0 then Parent else Child, k + 1);
    } else {
      assert Step(s, e).value.printed == s.printed;
    }
  }

  lemma StepKeeps(s: State, e: Event)
    requires Inv(s) && Step(s, e).Some?
    ensures Inv(Step(s, e).value)
  {
    PrintsNext(s, e);
    if e.Deliver? {
      DeliverKeeps(s, e.w);
    } else if Of(s, e.w).handler != Idle {
      HandlerKeeps(s, e.w);
    } else {
      LoopKeeps(s, e.w);
    }
  }

  ghost predicate ReachableCount(s: State) { Reachable(Step, Initial(), s) }

  lemma Invariant(s: State)
    requires ReachableCount(s)
    ensures Inv(s)
  {
    var inv := (s: State) => Inv(s);
    assert Inductive(Step, inv) by {
      forall s, e | inv(s) && Step(s, e).Some? ensures inv(Step(s, e).value) {
        StepKeeps(s, e);
      }
    }
    Invariance(Step, inv, Initial(), s);
  }

  // ----- What holds of every run -----

  /** However the loops and handlers interleave, the numbers printed are 1, 2, ..., k, odd ones
      by the parent and even ones by the child; the two never have the turn together. */
  lemma CountsInOrder(s: State)
    requires ReachableCount(s)
    ensures Counted(s.printed) && !(HasTurn(s.parent) && HasTurn(s.child))
  {
    Invariant(s);
  }

  /** A step loses the turn exactly when it is the last of a handler that has interrupted its own
      loop between sending the signal and clearing the flag. */
  lemma TurnLostWhen(s: State, e: Event)
    requires ReachableCount(s) && !TurnLost(s) && Step(s, e).Some?
    ensures TurnLost(Step(s, e).value) <==>
      e.Continue? && Of(s, e.w).handler == Set && Of(s, e.w).loop == Clear
  {
    Invariant(s);
  }

  /** The turn is lost, or will be when the handler that holds it returns. */
  predicate Over(s: State) { TurnLost(s) || Late(s.parent) || Late(s.child) }

  /** It has printed, but its loop is about to clear the flag its handler will set. */
  predicate Late(p: Process) { (p.handler == Add || p.handler == Set) && p.loop == Clear }

  lemma OverKeeps(s: State, e: Event)
    requires TurnOk(s) && Over(s) && Step(s, e).Some?
    ensures Over(Step(s, e).value) && Step(s, e).value.printed == s.printed
  {}

  lemma {:induction false} OverForGood(s: State, es: seq<Event>)
    requires Inv(s) && Over(s) && Exec(Step, s, es).Some?
    ensures Exec(Step, s, es).value.printed == s.printed
    decreases |es|
  {
    if es != [] {
      StepKeeps(s, es[0]);
      OverKeeps(s, es[0]);
      OverForGood(Step(s, es[0]).value, es[1..]);
    }
  }

  function Holder(s: State): Who { if HasTurn(s.parent) then Parent else Child }

  /** How far the holder of the turn is from the next number. */
  function Distance(p: Process): nat {
    if p.handler == Print then 1 else if p.pending then 2
    else if p.handler == Add then 6 else if p.handler == Set then 5
    else if p.loop == Test then 4 else 3
  }

  function Next(s: State): Event {
    var w := Holder(s);
    if Of(s, w).pending then Deliver(w) else Continue(w)
  }

  lemma Approaches(s: State)
    requires TurnOk(s) && !Over(s)
    ensures Step(s, Next(s)).Some?
    ensures var s', p := Step(s, Next(s)).value, Of(s, Holder(s));
      if p.handler == Print then |s'.printed| == |s.printed| + 1
      else s'.printed == s.printed && !Over(s') && Distance(Of(s', Holder(s'))) < Distance(p)
  {}

  lemma {:induction false} NextNumber(s: State) returns (es: seq<Event>)
    requires Inv(s) && !Over(s)
    ensures Exec(Step, s, es).Some? && |Exec(Step, s, es).value.printed| == |s.printed| + 1
    decreases Distance(Of(s, Holder(s)))
  {
    var e := Next(s);
    Approaches(s);
    StepKeeps(s, e);
    if Of(s, Holder(s)).handler == Print {
      es := [e];
      assert Exec(Step, Step(s, e).value, es[1..]) == Some(Step(s, e).value);
    } else {
      var rest := NextNumber(Step(s, e).value);
      es := [e] + rest;
      assert es[1..] == rest;
    }
  }

  ghost predicate CanGoOn(s: State) {
    exists es :: Exec(Step, s, es).Some? && |Exec(Step, s, es).value.printed| > |s.printed|
  }

  /** From any point of any run the count can go on exactly when the turn is neither lost nor held
      by a handler that is too late to keep it. */
  lemma GoesOnUnlessOver(s: State)
    requires ReachableCount(s)
    ensures CanGoOn(s) <==> !Over(s)
  {
    Invariant(s);
    if Over(s) {
      forall es | Exec(Step, s, es).Some? ensures |Exec(Step, s, es).value.printed| <= |s.printed| {
        OverForGood(s, es);
      }
    } else {
      var es := NextNumber(s);
    }
  }

  /** It can be lost: the child answers before the parent has cleared its flag. */
  lemma TurnCanBeLost() returns (s: State)
    ensures ReachableCount(s) && TurnLost(s) && |s.printed| == 3
  {
    var s0 := Initial();
    ReachableStart(Step, s0);
    var s1 := Advance(s0, Parent, 3);                     // prints 1
    var s2 := Advance(s1, Parent, 2);                     // sends its signal
    ReachableStep(Step, s0, s2, Deliver(Child));
    var s3 := Advance(Step(s2, Deliver(Child)).value, Child, 3);   // prints 2
    var s4 := Advance(s3, Child, 2);                      // answers
    ReachableStep(Step, s0, s4, Deliver(Parent));
    var s5 := Step(s4, Deliver(Parent)).value;
    assert s5.parent == Process(3, true, Clear, Print, false);
    s := Advance(s5, Parent, 3);                          // prints 3 with the flag still to clear
  }

  /** `k` steps of one process. */
  function Steps(s: State, w: Who, k: nat): State
    decreases k
  {
    if k == 0 then s else Steps(Step(s, Continue(w)).value, w, k - 1)
  }

  lemma {:induction false} Advance(s: State, w: Who, k: nat) returns (s': State)
    requires ReachableCount(s)
    ensures s' == Steps(s, w, k) && ReachableCount(s')
    decreases k
  {
    if k == 0 {
      s' := s;
    } else {
      ReachableStep(Step, Initial(), s, Continue(w));
      s' := Advance(Step(s, Continue(w)).value, w, k - 1);
    }
  }

  // ----- The program -----

  /** One of the two processes. */
  class Counter {
    const who: Who
    var n: int
    var flag: bool
    var loop: Loop
    var handler: Handler
    var pending: bool

    ghost function View(): Process
      reads this
    {
      Process(n, flag, loop, handler, pending)
    }

    constructor (who: Who)
      ensures this.who == who && View() == Of(Initial(), who)
    {
      this.who := who;
      n, flag, loop, pending := if who == Parent then 1 else 2, false, Test, false;
      handler := if who == Parent then Print else Idle;
    }

    /** Lines 19 to 30, or 35 to 46: the handler, if the other process does nothing meanwhile.
        `s` is any state this process is part of. */
    method Handle(printed: seq<(Who, int)>, ghost s: State) returns (output: seq<(Who, int)>)
      requires handler == Print && Of(s, who) == View() && s.printed == printed
      modifies this
      ensures Steps(s, who, 3) == With(s, who, View()).(printed := output)
    {
      ghost var s1 := InHandler(s, who);
      ghost var s2 := InHandler(s1, who);
      output := printed + [(who, n)];
      n := n + 2;
      flag := true;
      handler := Idle;
      assert Steps(s, who, 3) == Steps(s1, who, 2) == Steps(s2, who, 1) == InHandler(s2, who);
    }

    /** Lines 68 to 75, or 91 to 98: one turn of the loop, if neither process does anything
        else meanwhile. */
    method Turn(peer: Counter, ghost s: State)
      requires peer != this && peer.who == Other(who) && handler == Idle && loop == Test
      requires Of(s, who) == View() && Of(s, peer.who) == peer.View()
      modifies this, peer
      ensures Steps(s, who, if old(flag) then 3 else 1) == With(With(s, who, View()), peer.who, peer.View())
    {
      ghost var s1 := InLoop(s, who);
      ghost var s2 := InLoop(s1, who);
      if flag {
        peer.pending := true;
        flag := false;
        assert Steps(s, who, 3) == Steps(s1, who, 2) == Steps(s2, who, 1) == InLoop(s2, who);
      } else {
        assert Steps(s, who, 1) == Steps(s1, who, 0) == s1;
      }
    }
  }
}
