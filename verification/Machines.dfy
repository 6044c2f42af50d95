// Labelled transition systems: runs, reachable states, invariants.

/** A system is a partial step function: `step(s, e)` is the state after event `e`
    when `e` is possible in `s`, and None when it is not. All nondeterminism
    (scheduling, timeouts, short reads) sits in the choice of events. */
module Machines {

  datatype Option<+T> = None | Some(value: T)

  /** The state after the events `es`, or None if some event was not possible. */
  ghost function Exec<S, E>(step: (S, E) -> Option<S>, s: S, es: seq<E>): Option<S>
  {
    if es == [] then Some(s)
    else match step(s, es[0])
      case None => None
      case Some(t) => Exec(step, t, es[1..])
  }

  /** Some run leads from `s0` to `s`. */
  ghost predicate Reachable<S(!new), E(!new)>(step: (S, E) -> Option<S>, s0: S, s: S)
  {
    exists es: seq<E> :: Exec(step, s0, es) == Some(s)
  }

  /** `inv` survives every step. */
  ghost predicate Inductive<S(!new), E(!new)>(step: (S, E) -> Option<S>, inv: S -> bool)
  {
    forall s, e :: inv(s) && step(s, e).Some? ==> inv(step(s, e).value)
  }

  lemma {:induction false} ExecKeeps<S(!new), E(!new)>(step: (S, E) -> Option<S>, inv: S -> bool, s: S, es: seq<E>)
    requires Inductive(step, inv) && inv(s)
    requires Exec(step, s, es).Some?
    ensures inv(Exec(step, s, es).value)
    decreases |es|
  {
    if es != [] {
      ExecKeeps(step, inv, step(s, es[0]).value, es[1..]);
    }
  }

  /** An inductive property of the initial state holds in every reachable state. */
  lemma Invariance<S(!new), E(!new)>(step: (S, E) -> Option<S>, inv: S -> bool, s0: S, s: S)
    requires Inductive(step, inv) && inv(s0)
    requires Reachable(step, s0, s)
    ensures inv(s)
  {
    var es :| Exec(step, s0, es) == Some(s);
    ExecKeeps(step, inv, s0, es);
  }

  lemma {:induction false} ExecAppend<S, E>(step: (S, E) -> Option<S>, s: S, es: seq<E>, fs: seq<E>)
    requires Exec(step, s, es).Some?
    ensures Exec(step, s, es + fs) == Exec(step, Exec(step, s, es).value, fs)
    decreases |es|
  {
    if es == [] {
      assert es + fs == fs;
    } else {
      ExecAppend(step, step(s, es[0]).value, es[1..], fs);
      assert (es + fs)[1..] == es[1..] + fs;
    }
  }

  /** The first `k` + 1 events are the first one and `k` of the rest. */
  lemma ExecPrefix<S, E>(step: (S, E) -> Option<S>, s: S, es: seq<E>, k: nat)
    requires k < |es| && step(s, es[0]).Some?
    ensures Exec(step, s, es[..k + 1]) == Exec(step, step(s, es[0]).value, es[1..][..k])
  {
    assert es[..k + 1][1..] == es[1..][..k];
  }

  /** A run that is possible is possible up to its last event, which leads to where it ends. */
  lemma {:induction false} ExecLast<S, E>(step: (S, E) -> Option<S>, s: S, es: seq<E>)
    requires es != [] && Exec(step, s, es).Some?
    ensures Exec(step, s, es[..|es| - 1]).Some?
    ensures Exec(step, s, es) == step(Exec(step, s, es[..|es| - 1]).value, es[|es| - 1])
    decreases |es|
  {
    var n := |es| - 1;
    if n == 0 {
      assert es[..n] == [] && es[1..] == [];
    } else {
      ExecLast(step, step(s, es[0]).value, es[1..]);
      assert es[1..][..n - 1] == es[..n][1..];
    }
  }

  lemma ReachableStart<S(!new), E(!new)>(step: (S, E) -> Option<S>, s: S)
    ensures Reachable(step, s, s)
  {
    assert Exec(step, s, []) == Some(s);
  }

  /** A step out of a reachable state leads to a reachable state. */
  lemma ReachableStep<S(!new), E(!new)>(step: (S, E) -> Option<S>, s0: S, s: S, e: E)
    requires Reachable(step, s0, s) && step(s, e).Some?
    ensures Reachable(step, s0, step(s, e).value)
  {
    var es :| Exec(step, s0, es) == Some(s);
    ExecAppend(step, s0, es, [e]);
    assert Exec(step, step(s, e).value, [e][1..]) == Some(step(s, e).value);
    assert Exec(step, s0, es + [e]) == Some(step(s, e).value);
  }

  /** A run out of a reachable state leads to a reachable state. */
  lemma ReachableRun<S(!new), E(!new)>(step: (S, E) -> Option<S>, s0: S, s: S, fs: seq<E>)
    requires Reachable(step, s0, s) && Exec(step, s, fs).Some?
    ensures Reachable(step, s0, Exec(step, s, fs).value)
  {
    var es :| Exec(step, s0, es) == Some(s);
    ExecAppend(step, s0, es, fs);
    assert Exec(step, s0, es + fs) == Some(Exec(step, s, fs).value);
  }
}
