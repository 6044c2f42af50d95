// The semaphore-guarded ring buffer: one model for the shared-memory version with blocks
// of bytes and for the version with numbered products.

module Ring {
  import opened Machines
  import opened Sums
  import opened Arith

  /** A process between two of the six operations of `fifo_produce` or `fifo_consume`. */
  datatype Stage =
    | Idle       // before the first P operation
    | Admitted   // past it: a slot to fill, or a product to take, is reserved
    | Locked     // past the P operation on the mutex
    | Copied     // the block is copied, the index not yet advanced
    | Advanced   // the index is advanced
    | Unlocked   // the mutex is given back; only the last V operation is left

  /** `erased` is what a consumer leaves in its slot, if it writes to it at all. `produced`
      and `consumed` record the blocks in the order in which they were copied in and out. */
  datatype State<B> = State(
    slots: seq<B>, rd: nat, wr: nat, semProduce: int, semConsume: int, mutex: int,
    producers: seq<Stage>, consumers: seq<Stage>, erased: Option<B>,
    produced: seq<B>, consumed: seq<B>)

  function Initial<B>(slots: seq<B>, erased: Option<B>, producers: nat, consumers: nat): State<B> {
    State(slots, 0, 0, |slots|, 0, 1, seq(producers, _ => Idle), seq(consumers, _ => Idle), erased, [], [])
  }

  /** The next operation of a producer or a consumer; a producer copies in `item`. */
  datatype Event<B> = Produce(i: nat, item: B) | Consume(j: nat)

  function ProduceStep<B>(s: State<B>, i: nat, item: B): Option<State<B>>
    requires i < |s.producers|
  {
    match s.producers[i]
    case Idle =>
      if s.semProduce < 1 then None
      else Some(s.(semProduce := s.semProduce - 1, producers := s.producers[i := Admitted]))
    case Admitted =>
      if s.mutex < 1 then None
      else Some(s.(mutex := s.mutex - 1, producers := s.producers[i := Locked]))
    case Locked =>
      if s.wr >= |s.slots| then None
      else Some(s.(slots := s.slots[s.wr := item], produced := s.produced + [item], producers := s.producers[i := Copied]))
    case Copied =>
      if |s.slots| == 0 then None
      else Some(s.(wr := (s.wr + 1) % |s.slots|, producers := s.producers[i := Advanced]))
    case Advanced =>
      Some(s.(mutex := s.mutex + 1, producers := s.producers[i := Unlocked]))
    case Unlocked =>
      Some(s.(semConsume := s.semConsume + 1, producers := s.producers[i := Idle]))
  }

  function ConsumeStep<B>(s: State<B>, j: nat): Option<State<B>>
    requires j < |s.consumers|
  {
    match s.consumers[j]
    case Idle =>
      if s.semConsume < 1 then None
      else Some(s.(semConsume := s.semConsume - 1, consumers := s.consumers[j := Admitted]))
    case Admitted =>
      if s.mutex < 1 then None
      else Some(s.(mutex := s.mutex - 1, consumers := s.consumers[j := Locked]))
    case Locked =>
      if s.rd >= |s.slots| then None
      else Some(s.(slots := if s.erased.Some? then s.slots[s.rd := s.erased.value] else s.slots,
                   consumed := s.consumed + [s.slots[s.rd]], consumers := s.consumers[j := Copied]))
    case Copied =>
      if |s.slots| == 0 then None
      else Some(s.(rd := (s.rd + 1) % |s.slots|, consumers := s.consumers[j := Advanced]))
    case Advanced =>
      Some(s.(mutex := s.mutex + 1, consumers := s.consumers[j := Unlocked]))
    case Unlocked =>
      Some(s.(semProduce := s.semProduce + 1, consumers := s.consumers[j := Idle]))
  }

  function Step<B>(s: State<B>, e: Event<B>): Option<State<B>> {
    match e
    case Produce(i, item) => if i < |s.producers| then ProduceStep(s, i, item) else None
    case Consume(j) => if j < |s.consumers| then ConsumeStep(s, j) else None
  }

  // ----- The critical sections -----

  /** What the mutex protects. */
  datatype Data<B> = Data(slots: seq<B>, rd: nat, wr: nat)

  function DataOf<B>(s: State<B>): Data<B> { Data(s.slots, s.rd, s.wr) }

  /** A producer's critical section. */
  function Put<B>(d: Data<B>, item: B): Data<B>
    requires d.wr < |d.slots|
  {
    d.(slots := d.slots[d.wr := item], wr := (d.wr + 1) % |d.slots|)
  }

  /** A consumer's critical section, less the block it takes. */
  function Get<B>(d: Data<B>, erased: Option<B>): Data<B>
    requires d.rd < |d.slots|
  {
    d.(slots := if erased.Some? then d.slots[d.rd := erased.value] else d.slots, rd := (d.rd + 1) % |d.slots|)
  }

  /** Between the operations on the mutex a producer does `Put`, a consumer `Get`. */
  lemma CriticalSections<B>(s: State<B>, i: nat, item: B)
    ensures i < |s.producers| && s.producers[i] == Locked && s.wr < |s.slots| ==>
      var s1 := Step(s, Produce(i, item)).value;
      Step(s1, Produce(i, item)).Some? && DataOf(Step(s1, Produce(i, item)).value) == Put(DataOf(s), item)
    ensures i < |s.consumers| && s.consumers[i] == Locked && s.rd < |s.slots| ==>
      var s1 := Step(s, Consume(i)).value;
      && Step(s1, Consume(i)).Some? && DataOf(Step(s1, Consume(i)).value) == Get(DataOf(s), s.erased)
      && s1.consumed == s.consumed + [s.slots[s.rd]]
  {}

  // ----- The invariant -----

  function Before(p: Stage): int { if p.Admitted? || p.Locked? then 1 else 0 }
  function After(p: Stage): int { if p.Copied? || p.Advanced? || p.Unlocked? then 1 else 0 }
  function Lagging(p: Stage): int { if p.Copied? then 1 else 0 }
  function Holding(p: Stage): int { if p.Locked? || p.Advanced? then 1 else 0 }

  /** The counting semaphores and the processes in flight account for every slot. */
  ghost predicate Tickets<B>(s: State<B>) {
    var unread := |s.produced| - |s.consumed|;
    && s.semProduce >= 0 && s.semConsume >= 0
    && Taken(s) == unread
    && Spare(s) + unread == |s.slots|
  }

  /** Products offered to consumers, or about to be. */
  function Taken<B>(s: State<B>): int { s.semConsume + Sum(s.consumers, Before) + Sum(s.producers, After) }

  /** Slots offered to producers, or about to be. */
  function Spare<B>(s: State<B>): int { s.semProduce + Sum(s.producers, Before) + Sum(s.consumers, After) }

  /** The mutex is free or one process is past it. */
  ghost predicate MutexOk<B>(s: State<B>) {
    && s.mutex >= 0
    && s.mutex + Sum(s.producers, Lagging) + Sum(s.producers, Holding)
       + Sum(s.consumers, Lagging) + Sum(s.consumers, Holding) == 1
  }

  ghost predicate Tokens<B>(s: State<B>) { Tickets(s) && MutexOk(s) }

  /** With `a` blocks copied in and `b` out: the unread blocks lie in their slots, the other
      slots are erased, and an index lags only while its mover is between copy and advance. */
  ghost predicate Contents<B>(s: State<B>) {
    var n, a, b := |s.slots|, |s.produced|, |s.consumed|;
    && b <= a <= b + n
    && s.consumed == s.produced[..b]
    && (n > 0 ==>
        && s.wr == (a - Sum(s.producers, Lagging)) % n
        && s.rd == (b - Sum(s.consumers, Lagging)) % n
        && (forall k :: b <= k < a ==> s.slots[k % n] == s.produced[k])
        && (s.erased.Some? ==> forall k :: a <= k < b + n ==> s.slots[k % n] == s.erased.value))
  }

  ghost predicate Inv<B>(s: State<B>) { Tokens(s) && Contents(s) }

  lemma StagesCount(ps: seq<Stage>)
    ensures Sum(ps, Before) >= 0 && Sum(ps, After) >= 0 && Sum(ps, Lagging) >= 0 && Sum(ps, Holding) >= 0
  {
    SumNonNegative(ps, Before);
    SumNonNegative(ps, After);
    SumNonNegative(ps, Lagging);
    SumNonNegative(ps, Holding);
  }

  lemma StageCounts(ps: seq<Stage>, i: nat)
    requires i < |ps|
    ensures Sum(ps, Before) >= Before(ps[i]) && Sum(ps, After) >= After(ps[i])
    ensures Sum(ps, Lagging) >= Lagging(ps[i]) && Sum(ps, Holding) >= Holding(ps[i])
  {
    SumBoundsElement(ps, i, Before);
    SumBoundsElement(ps, i, After);
    SumBoundsElement(ps, i, Lagging);
    SumBoundsElement(ps, i, Holding);
  }

  lemma Counts<B>(s: State<B>)
    ensures Sum(s.producers, Before) >= 0 && Sum(s.producers, After) >= 0
    ensures Sum(s.producers, Lagging) >= 0 && Sum(s.producers, Holding) >= 0
    ensures Sum(s.consumers, Before) >= 0 && Sum(s.consumers, After) >= 0
    ensures Sum(s.consumers, Lagging) >= 0 && Sum(s.consumers, Holding) >= 0
  {
    StagesCount(s.producers);
    StagesCount(s.consumers);
  }

  /** A producer's copy makes a spare slot a product. */
  lemma ProduceTickets<B>(s: State<B>, i: nat, item: B)
    requires Tickets(s) && i < |s.producers| && ProduceStep(s, i, item).Some?
    ensures Tickets(ProduceStep(s, i, item).value)
  {
    var s', copies := ProduceStep(s, i, item).value, if s.producers[i] == Locked then 1 else 0;
    assert Spare(s') == Spare(s) - copies by { SumUpdate(s.producers, i, s'.producers[i], Before); }
    assert Taken(s') == Taken(s) + copies by { SumUpdate(s.producers, i, s'.producers[i], After); }
  }

  lemma ProduceMutex<B>(s: State<B>, i: nat, item: B)
    requires MutexOk(s) && i < |s.producers| && ProduceStep(s, i, item).Some?
    ensures MutexOk(ProduceStep(s, i, item).value)
  {
    var p := ProduceStep(s, i, item).value.producers[i];
    SumUpdate(s.producers, i, p, Lagging);
    SumUpdate(s.producers, i, p, Holding);
  }

  lemma ConsumeTickets<B>(s: State<B>, j: nat)
    requires Tickets(s) && j < |s.consumers| && ConsumeStep(s, j).Some?
    ensures Tickets(ConsumeStep(s, j).value)
  {
    var s', copies := ConsumeStep(s, j).value, if s.consumers[j] == Locked then 1 else 0;
    assert Taken(s') == Taken(s) - copies by { SumUpdate(s.consumers, j, s'.consumers[j], Before); }
    assert Spare(s') == Spare(s) + copies by { SumUpdate(s.consumers, j, s'.consumers[j], After); }
  }

  lemma ConsumeMutex<B>(s: State<B>, j: nat)
    requires MutexOk(s) && j < |s.consumers| && ConsumeStep(s, j).Some?
    ensures MutexOk(ConsumeStep(s, j).value)
  {
    var p := ConsumeStep(s, j).value.consumers[j];
    SumUpdate(s.consumers, j, p, Lagging);
    SumUpdate(s.consumers, j, p, Holding);
  }

  lemma ProduceTokens<B>(s: State<B>, i: nat, item: B)
    requires Tokens(s) && i < |s.producers| && ProduceStep(s, i, item).Some?
    ensures Tokens(ProduceStep(s, i, item).value)
  {
    ProduceTickets(s, i, item);
    ProduceMutex(s, i, item);
  }

  lemma ConsumeTokens<B>(s: State<B>, j: nat)
    requires Tokens(s) && j < |s.consumers| && ConsumeStep(s, j).Some?
    ensures Tokens(ConsumeStep(s, j).value)
  {
    ConsumeTickets(s, j);
    ConsumeMutex(s, j);
  }

  /** A producer past the mutex finds its index up to date and a position free. */
  lemma CopyInReady<B>(s: State<B>, i: nat)
    requires Inv(s) && i < |s.producers| && s.producers[i] == Locked
    ensures |s.slots| > 0 && s.wr == |s.produced| % |s.slots|
    ensures Sum(s.producers, Lagging) == 0 && |s.produced| < |s.consumed| + |s.slots|
  {
    Counts(s);
    StageCounts(s.producers, i);
  }

  lemma CopyOutReady<B>(s: State<B>, j: nat)
    requires Inv(s) && j < |s.consumers| && s.consumers[j] == Locked
    ensures |s.slots| > 0 && s.rd == |s.consumed| % |s.slots|
    ensures Sum(s.consumers, Lagging) == 0 && |s.consumed| < |s.produced|
    ensures s.slots[s.rd] == s.produced[|s.consumed|]
  {
    Counts(s);
    StageCounts(s.consumers, j);
  }

  /** Within a capacity's reach of `b`, no other position shares the slot of position `a`. */
  lemma OwnSlot(a: nat, b: nat, n: nat)
    requires n > 0 && b <= a < b + n
    ensures forall k :: b <= k < b + n && k != a ==> k % n != a % n
  {
    forall k | b <= k < b + n && k != a ensures k % n != a % n {
      if k < a {
        ModDistinct(k, a, n);
      } else {
        ModDistinct(a, k, n);
      }
    }
  }

  /** Copying into the slot of a free position touches no unread block. */
  lemma CopyInKeeps<B>(s: State<B>, i: nat, item: B)
    requires Inv(s) && i < |s.producers| && s.producers[i] == Locked
    ensures ProduceStep(s, i, item).Some? && Inv(ProduceStep(s, i, item).value)
  {
    CopyInReady(s, i);
    ProduceTokens(s, i, item);
    var n, a, b := |s.slots|, |s.produced|, |s.consumed|;
    var s' := ProduceStep(s, i, item).value;
    assert Sum(s'.producers, Lagging) == 1 by { SumUpdate(s.producers, i, Copied, Lagging); }
    OwnSlot(a, b, n);
    assert s'.produced[..b] == s.produced[..b];
  }

  /** The block copied out is the oldest unread one. */
  lemma CopyOutKeeps<B>(s: State<B>, j: nat)
    requires Inv(s) && j < |s.consumers| && s.consumers[j] == Locked
    ensures ConsumeStep(s, j).Some? && Inv(ConsumeStep(s, j).value)
  {
    CopyOutReady(s, j);
    ConsumeTokens(s, j);
    var n, a, b := |s.slots|, |s.produced|, |s.consumed|;
    var s' := ConsumeStep(s, j).value;
    assert Sum(s'.consumers, Lagging) == 1 by { SumUpdate(s.consumers, j, Copied, Lagging); }
    OwnSlot(b, b, n);
    ModPeriod(b, n);
    assert s.produced[..b + 1] == s.produced[..b] + [s.produced[b]];
  }

  /** Nothing but the copies and the indices touches the data. */
  lemma SameContents<B>(s: State<B>, s': State<B>)
    requires Contents(s) && DataOf(s') == DataOf(s) && s'.erased == s.erased
    requires s'.produced == s.produced && s'.consumed == s.consumed
    requires Sum(s'.producers, Lagging) == Sum(s.producers, Lagging)
    requires Sum(s'.consumers, Lagging) == Sum(s.consumers, Lagging)
    ensures Contents(s')
  {}

  /** Moving an index brings it up to date. */
  lemma WriteIndexMoves<B>(s: State<B>, i: nat, item: B)
    requires Inv(s) && i < |s.producers| && s.producers[i] == Copied && |s.slots| > 0
    ensures Contents(ProduceStep(s, i, item).value)
  {
    Counts(s);
    StageCounts(s.producers, i);
    assert Sum(s.producers, Lagging) == 1;
    SumUpdate(s.producers, i, Advanced, Lagging);
    ModNext(|s.produced| - 1, |s.slots|);
  }

  lemma ReadIndexMoves<B>(s: State<B>, j: nat)
    requires Inv(s) && j < |s.consumers| && s.consumers[j] == Copied && |s.slots| > 0
    ensures Contents(ConsumeStep(s, j).value)
  {
    Counts(s);
    StageCounts(s.consumers, j);
    assert Sum(s.consumers, Lagging) == 1;
    SumUpdate(s.consumers, j, Advanced, Lagging);
    ModNext(|s.consumed| - 1, |s.slots|);
  }

  lemma ProduceContents<B>(s: State<B>, i: nat, item: B)
    requires Inv(s) && i < |s.producers| && ProduceStep(s, i, item).Some? && s.producers[i] != Locked
    ensures Contents(ProduceStep(s, i, item).value)
  {
    if s.producers[i] == Copied {
      WriteIndexMoves(s, i, item);
    } else {
      var s' := ProduceStep(s, i, item).value;
      SumUpdate(s.producers, i, s'.producers[i], Lagging);
      SameContents(s, s');
    }
  }

  lemma ConsumeContents<B>(s: State<B>, j: nat)
    requires Inv(s) && j < |s.consumers| && ConsumeStep(s, j).Some? && s.consumers[j] != Locked
    ensures Contents(ConsumeStep(s, j).value)
  {
    if s.consumers[j] == Copied {
      ReadIndexMoves(s, j);
    } else {
      var s' := ConsumeStep(s, j).value;
      SumUpdate(s.consumers, j, s'.consumers[j], Lagging);
      SameContents(s, s');
    }
  }

  lemma ProduceKeeps<B>(s: State<B>, i: nat, item: B)
    requires Inv(s) && i < |s.producers| && ProduceStep(s, i, item).Some?
    ensures Inv(ProduceStep(s, i, item).value)
  {
    if s.producers[i] == Locked {
      CopyInKeeps(s, i, item);
    } else {
      ProduceTokens(s, i, item);
      ProduceContents(s, i, item);
    }
  }

  lemma ConsumeKeeps<B>(s: State<B>, j: nat)
    requires Inv(s) && j < |s.consumers| && ConsumeStep(s, j).Some?
    ensures Inv(ConsumeStep(s, j).value)
  {
    if s.consumers[j] == Locked {
      CopyOutKeeps(s, j);
    } else {
      ConsumeTokens(s, j);
      ConsumeContents(s, j);
    }
  }

  ghost predicate ReachableRing<B(!new)>(slots: seq<B>, erased: Option<B>, producers: nat, consumers: nat, s: State<B>) {
    Reachable(Step<B>, Initial(slots, erased, producers, consumers), s)
  }

  ghost predicate InvFor<B>(n: nat, erased: Option<B>, producers: nat, consumers: nat, s: State<B>) {
    Inv(s) && |s.slots| == n && s.erased == erased && |s.producers| == producers && |s.consumers| == consumers
  }

  lemma {:induction false} AllIdle(n: nat)
    ensures var ps := seq(n, _ => Idle);
      Sum(ps, Before) == Sum(ps, After) == Sum(ps, Lagging) == Sum(ps, Holding) == 0
    decreases n
  {
    if n > 0 {
      AllIdle(n - 1);
      assert seq(n, _ => Idle)[..n - 1] == seq(n - 1, _ => Idle);
    }
  }

  /** Where the buffer starts out erased, if consumers erase at all. */
  ghost predicate StartsErased<B>(slots: seq<B>, erased: Option<B>) {
    erased.Some? ==> forall k :: 0 <= k < |slots| ==> slots[k] == erased.value
  }

  lemma InitialInv<B>(slots: seq<B>, erased: Option<B>, producers: nat, consumers: nat)
    requires StartsErased(slots, erased)
    ensures InvFor(|slots|, erased, producers, consumers, Initial(slots, erased, producers, consumers))
  {
    AllIdle(producers);
    AllIdle(consumers);
    if |slots| > 0 {
      DivModUnique(0, |slots|, 0, 0);
    }
    forall k | 0 <= k < |slots| ensures k % |slots| == k {
      DivModUnique(k, |slots|, 0, k);
    }
  }

  lemma StepKeeps<B>(s: State<B>, e: Event<B>)
    requires Inv(s) && Step(s, e).Some?
    ensures Inv(Step(s, e).value)
  {
    match e
    case Produce(i, item) => ProduceKeeps(s, i, item);
    case Consume(j) => ConsumeKeeps(s, j);
  }

  lemma StepFrame<B>(s: State<B>, e: Event<B>)
    requires Step(s, e).Some?
    ensures var s' := Step(s, e).value;
      |s'.slots| == |s.slots| && s'.erased == s.erased
      && |s'.producers| == |s.producers| && |s'.consumers| == |s.consumers|
  {}

  lemma Invariant<B(!new)>(slots: seq<B>, erased: Option<B>, producers: nat, consumers: nat, s: State<B>)
    requires ReachableRing(slots, erased, producers, consumers, s) && StartsErased(slots, erased)
    ensures InvFor(|slots|, erased, producers, consumers, s)
  {
    var inv := (s: State<B>) => InvFor(|slots|, erased, producers, consumers, s);
    InitialInv(slots, erased, producers, consumers);
    assert Inductive(Step<B>, inv) by {
      forall s: State<B>, e: Event<B> | inv(s) && Step(s, e).Some? ensures inv(Step(s, e).value) {
        StepKeeps(s, e);
        StepFrame(s, e);
      }
    }
    Invariance(Step<B>, inv, Initial(slots, erased, producers, consumers), s);
  }

  // ----- What holds of every run -----

  function InFlight(p: Stage): int { if p.Idle? then 0 else 1 }

  lemma {:induction false} InFlightSplit(ps: seq<Stage>)
    ensures Sum(ps, InFlight) == Sum(ps, Before) + Sum(ps, After)
    decreases |ps|
  {
    if ps != [] {
      InFlightSplit(ps[..|ps| - 1]);
    }
  }

  /** Free slots, products and processes in flight make up the capacity; the blocks consumed
      are a prefix of the blocks produced; every unread block is in its slot. */
  lemma Conservation<B(!new)>(slots: seq<B>, erased: Option<B>, producers: nat, consumers: nat, s: State<B>, k: nat)
    requires ReachableRing(slots, erased, producers, consumers, s) && StartsErased(slots, erased)
    ensures s.semProduce + s.semConsume + Sum(s.producers, InFlight) + Sum(s.consumers, InFlight) == |slots|
    ensures 0 <= s.semProduce && 0 <= s.semConsume && 0 <= s.mutex <= 1
    ensures s.consumed <= s.produced && |s.produced| - |s.consumed| <= |slots| == |s.slots|
    ensures |s.consumed| <= k < |s.produced| ==> |slots| > 0 && s.slots[k % |slots|] == s.produced[k]
  {
    Invariant(slots, erased, producers, consumers, s);
    Counts(s);
    InFlightSplit(s.producers);
    InFlightSplit(s.consumers);
  }

  /** At most one process is between the operations on the mutex. */
  lemma MutualExclusion<B(!new)>(slots: seq<B>, erased: Option<B>, producers: nat, consumers: nat, s: State<B>)
    requires ReachableRing(slots, erased, producers, consumers, s) && StartsErased(slots, erased)
    ensures Sum(s.producers, Lagging) + Sum(s.producers, Holding)
            + Sum(s.consumers, Lagging) + Sum(s.consumers, Holding) <= 1
  {
    Invariant(slots, erased, producers, consumers, s);
    Counts(s);
  }

  /** The operations of a bounded first-in first-out queue. */
  datatype QueueOp<B> = Enqueue(item: B) | Dequeue(item: B) | NoOp

  ghost predicate QueueStep<B>(q: seq<B>, op: QueueOp<B>, q': seq<B>, capacity: nat) {
    match op
    case Enqueue(x) => |q| < capacity && q' == q + [x]
    case Dequeue(x) => q != [] && x == q[0] && q' == q[1..]
    case NoOp => q' == q
  }

  /** The unread blocks, oldest first. */
  function Queue<B>(s: State<B>): seq<B>
    requires |s.consumed| <= |s.produced|
  {
    s.produced[|s.consumed|..]
  }

  /** What an operation of the ring does to the queue: a producer's copy puts its item in, a
      consumer's copy takes out what it finds in the slot. */
  function OpOf<B>(s: State<B>, e: Event<B>): QueueOp<B> {
    match e
    case Produce(i, item) => if i < |s.producers| && s.producers[i] == Locked then Enqueue(item) else NoOp
    case Consume(j) =>
      if j < |s.consumers| && s.consumers[j] == Locked && s.rd < |s.slots| then Dequeue(s.slots[s.rd]) else NoOp
  }

  lemma StepRefines<B>(s: State<B>, e: Event<B>)
    requires Inv(s) && Step(s, e).Some?
    ensures var s' := Step(s, e).value;
      && |s.consumed| <= |s.produced| && |s'.consumed| <= |s'.produced|
      && QueueStep(Queue(s), OpOf(s, e), Queue(s'), |s.slots|)
  {
    if e.Produce? && s.producers[e.i] == Locked {
      CopyInReady(s, e.i);
    } else if e.Consume? && s.consumers[e.j] == Locked {
      CopyOutReady(s, e.j);
    } else {
      assert Step(s, e).value.produced == s.produced && Step(s, e).value.consumed == s.consumed;
    }
  }

  /** The ring refines a bounded FIFO queue, for any number of processes and any interleaving. */
  lemma RefinesQueue<B(!new)>(slots: seq<B>, erased: Option<B>, producers: nat, consumers: nat, s: State<B>, e: Event<B>)
    requires ReachableRing(slots, erased, producers, consumers, s) && StartsErased(slots, erased)
    requires Step(s, e).Some?
    ensures var s' := Step(s, e).value;
      && |s.consumed| <= |s.produced| && |s'.consumed| <= |s'.produced|
      && QueueStep(Queue(s), OpOf(s, e), Queue(s'), |slots|)
  {
    Invariant(slots, erased, producers, consumers, s);
    StepRefines(s, e);
  }

  // ----- Progress -----

  /** A producer begins a new production. */
  predicate Starts<B>(s: State<B>, e: Event<B>) {
    e.Produce? && e.i < |s.producers| && s.producers[e.i].Idle?
  }

  ghost predicate Stuck<B(!new)>(s: State<B>) {
    forall e: Event<B> :: Step(s, e).None?
  }

  /** Some process can always go on, in every run, exactly when the buffer has a slot and there
      are a producer and a consumer. */
  lemma NeverStuck<B(!new)>(slots: seq<B>, erased: Option<B>, producers: nat, consumers: nat, item: B)
    requires StartsErased(slots, erased)
    ensures (forall s: State<B> :: ReachableRing(slots, erased, producers, consumers, s) ==> !Stuck(s))
       <==> |slots| > 0 && producers > 0 && consumers > 0
  {
    if |slots| > 0 && producers > 0 && consumers > 0 {
      forall s: State<B> | ReachableRing(slots, erased, producers, consumers, s) ensures !Stuck(s) {
        Invariant(slots, erased, producers, consumers, s);
        var e := SomeStep(s, item);
      }
    } else {
      var s0 := Initial(slots, erased, producers, consumers);
      ReachableStart(Step<B>, s0);
      if |slots| > 0 && producers > 0 {
        var s := Filled(slots, erased, producers, item, |slots|);
        assert Stuck(s);
      } else {
        assert Stuck(s0);
      }
    }
  }

  /** A process that is in flight, or one that holds up another, can take its next step. */
  lemma InFlightStep<B>(s: State<B>, item: B) returns (e: Event<B>)
    requires Inv(s) && Sum(s.producers, InFlight) + Sum(s.consumers, InFlight) > 0
    ensures Step(s, e).Some? && !Starts(s, e)
    ensures e.Consume? ==> e.j < |s.consumers| && !s.consumers[e.j].Idle?
  {
    Counts(s);
    InFlightSplit(s.producers);
    InFlightSplit(s.consumers);
    if i: nat :| i < |s.producers| && (s.producers[i].Copied? || s.producers[i].Advanced? || s.producers[i].Unlocked?) {
      e := Produce(i, item);
    } else if i: nat :| i < |s.producers| && s.producers[i].Locked? {
      CopyInKeeps(s, i, item);
      e := Produce(i, item);
    } else if j: nat :| j < |s.consumers| && (s.consumers[j].Copied? || s.consumers[j].Advanced? || s.consumers[j].Unlocked?) {
      e := Consume(j);
    } else if j: nat :| j < |s.consumers| && s.consumers[j].Locked? {
      CopyOutKeeps(s, j);
      e := Consume(j);
    } else {
      NoneLocked(s);
      e := AdmittedStep(s, item);
    }
  }

  /** With the mutex free, an admitted process can lock it. */
  lemma AdmittedStep<B>(s: State<B>, item: B) returns (e: Event<B>)
    requires s.mutex == 1 && Sum(s.producers, Before) + Sum(s.consumers, Before) > 0
    requires forall i :: 0 <= i < |s.producers| ==> s.producers[i].Idle? || s.producers[i].Admitted?
    requires forall j :: 0 <= j < |s.consumers| ==> s.consumers[j].Idle? || s.consumers[j].Admitted?
    ensures Step(s, e).Some? && !Starts(s, e)
    ensures e.Consume? ==> e.j < |s.consumers| && !s.consumers[e.j].Idle?
  {
    if Sum(s.producers, Before) > 0 {
      var i := SumPositiveElement(s.producers, Before);
      e := Produce(i, item);
    } else {
      var j := SumPositiveElement(s.consumers, Before);
      e := Consume(j);
    }
  }

  /** With nobody in flight, one of the counting semaphores is positive. */
  lemma SomeStep<B>(s: State<B>, item: B) returns (e: Event<B>)
    requires Inv(s) && |s.slots| > 0 && s.producers != [] && s.consumers != []
    ensures Step(s, e).Some?
  {
    if Sum(s.producers, InFlight) + Sum(s.consumers, InFlight) > 0 {
      e := InFlightStep(s, item);
    } else {
      NobodyInFlight(s);
      e := if s.semProduce > 0 then Produce(0, item) else Consume(0);
    }
  }

  lemma NobodyInFlight<B>(s: State<B>)
    requires Inv(s) && Sum(s.producers, InFlight) + Sum(s.consumers, InFlight) <= 0
    ensures AllIdleIn(s.producers) && AllIdleIn(s.consumers)
    ensures s.semConsume == |s.produced| - |s.consumed| && s.semProduce + s.semConsume == |s.slots|
  {
    Counts(s);
    InFlightSplit(s.producers);
    InFlightSplit(s.consumers);
    forall i | 0 <= i < |s.producers| ensures s.producers[i].Idle? { SumBoundsElement(s.producers, i, InFlight); }
    forall j | 0 <= j < |s.consumers| ensures s.consumers[j].Idle? { SumBoundsElement(s.consumers, j, InFlight); }
  }

  predicate AllIdleIn(ps: seq<Stage>) { forall i :: 0 <= i < |ps| ==> ps[i].Idle? }

  /** With nobody past the mutex, it is free, and every process is idle or admitted. */
  lemma NoneLocked<B>(s: State<B>)
    requires Inv(s)
    requires forall i :: 0 <= i < |s.producers| ==> s.producers[i].Idle? || s.producers[i].Admitted?
    requires forall j :: 0 <= j < |s.consumers| ==> s.consumers[j].Idle? || s.consumers[j].Admitted?
    ensures s.mutex == 1 && Sum(s.producers, After) == 0 && Sum(s.consumers, After) == 0
  {
    Counts(s);
    SumUpperBound(s.producers, After, 0);
    SumUpperBound(s.producers, Lagging, 0);
    SumUpperBound(s.producers, Holding, 0);
    SumUpperBound(s.consumers, After, 0);
    SumUpperBound(s.consumers, Lagging, 0);
    SumUpperBound(s.consumers, Holding, 0);
  }

  /** Without a consumer, one producer fills the buffer. */
  lemma {:induction false} Filled<B(!new)>(slots: seq<B>, erased: Option<B>, producers: nat, item: B, k: nat)
    returns (s: State<B>)
    requires StartsErased(slots, erased) && producers > 0 && k <= |slots|
    ensures ReachableRing(slots, erased, producers, 0, s)
    ensures s.producers == seq(producers, _ => Idle) && s.consumers == []
    ensures s.semProduce == |slots| - k && s.mutex == 1
    decreases k
  {
    if k == 0 {
      s := Initial(slots, erased, producers, 0);
      ReachableStart(Step<B>, s);
    } else {
      var s0 := Filled(slots, erased, producers, item, k - 1);
      s := Advance(slots, erased, producers, s0, item);
      s := Advance(slots, erased, producers, s, item);
      assert |s.slots| > 0 && s.wr < |s.slots| by {
        Invariant(slots, erased, producers, 0, s);
        CopyInReady(s, 0);
      }
      s := Advance(slots, erased, producers, s, item);
      s := Advance(slots, erased, producers, s, item);
      s := Advance(slots, erased, producers, s, item);
      s := Advance(slots, erased, producers, s, item);
      assert s.producers == s0.producers;
    }
  }

  lemma Advance<B(!new)>(slots: seq<B>, erased: Option<B>, producers: nat, s: State<B>, item: B) returns (s': State<B>)
    requires ReachableRing(slots, erased, producers, 0, s) && Step(s, Produce(0, item)).Some?
    ensures s' == Step(s, Produce(0, item)).value && ReachableRing(slots, erased, producers, 0, s')
  {
    ReachableStep(Step<B>, Initial(slots, erased, producers, 0), s, Produce(0, item));
    s' := Step(s, Produce(0, item)).value;
  }

  // ----- Everything produced is consumed -----

  /** The steps of consumers and of producers in flight. */
  function DrainStep<B>(s: State<B>, e: Event<B>): Option<State<B>> {
    if Starts(s, e) then None else Step(s, e)
  }

  function StageLeft(p: Stage): int {
    match p
    case Idle => 0
    case Admitted => 5
    case Locked => 4
    case Copied => 3
    case Advanced => 2
    case Unlocked => 1
  }

  /** Steps to come before everything produced is consumed: those of the processes in flight, and six
      for each product that is offered to consumers or will be. */
  function StepsLeft<B>(s: State<B>): int {
    Sum(s.producers, StageLeft) + Sum(s.consumers, StageLeft) + 6 * (s.semConsume + Sum(s.producers, InFlight))
  }

  /** Products there are, or will be without a new production. */
  function Promised<B>(s: State<B>): int { |s.produced| + Sum(s.producers, Before) }

  lemma DrainProduce<B>(s: State<B>, i: nat, item: B)
    requires i < |s.producers| && !s.producers[i].Idle? && ProduceStep(s, i, item).Some?
    ensures var s' := ProduceStep(s, i, item).value;
      StepsLeft(s') == StepsLeft(s) - 1 && Promised(s') == Promised(s) && s.produced <= s'.produced
  {
    var p := ProduceStep(s, i, item).value.producers[i];
    SumUpdate(s.producers, i, p, StageLeft);
    SumUpdate(s.producers, i, p, InFlight);
    SumUpdate(s.producers, i, p, Before);
  }

  lemma DrainConsume<B>(s: State<B>, j: nat)
    requires j < |s.consumers| && ConsumeStep(s, j).Some?
    ensures var s' := ConsumeStep(s, j).value;
      StepsLeft(s') == StepsLeft(s) - 1 && Promised(s') == Promised(s) && s.produced <= s'.produced
  {
    SumUpdate(s.consumers, j, ConsumeStep(s, j).value.consumers[j], StageLeft);
  }

  lemma {:induction false} DrainRun<B>(s: State<B>, es: seq<Event<B>>)
    requires Inv(s) && Exec(DrainStep<B>, s, es).Some?
    ensures var t := Exec(DrainStep<B>, s, es).value;
      && Inv(t) && |t.consumers| == |s.consumers| && s.produced <= t.produced
      && StepsLeft(t) == StepsLeft(s) - |es| && Promised(t) == Promised(s)
    decreases |es|
  {
    if es != [] {
      var s' := DrainOne(s, es[0]);
      DrainRun(s', es[1..]);
    }
  }

  lemma DrainOne<B>(s: State<B>, e: Event<B>) returns (s': State<B>)
    requires Inv(s) && DrainStep(s, e).Some?
    ensures DrainStep(s, e) == Some(s') && Inv(s') && |s'.consumers| == |s.consumers| && s.produced <= s'.produced
    ensures StepsLeft(s') == StepsLeft(s) - 1 && Promised(s') == Promised(s)
  {
    s' := DrainStep(s, e).value;
    StepKeeps(s, e);
    match e
    case Produce(i, item) => DrainProduce(s, i, item);
    case Consume(j) => DrainConsume(s, j);
  }

  /** Nobody is in flight, everything produced is consumed, and the buffer is free. */
  ghost predicate Drained<B>(s: State<B>) {
    && AllIdleIn(s.producers) && AllIdleIn(s.consumers)
    && s.consumed == s.produced && s.semProduce == |s.slots| && s.semConsume == 0
  }

  lemma StepsLeftNonNegative<B>(s: State<B>)
    requires Inv(s)
    ensures StepsLeft(s) >= 6 * s.semConsume >= 0
  {
    SumNonNegative(s.producers, StageLeft);
    SumNonNegative(s.consumers, StageLeft);
    SumNonNegative(s.producers, InFlight);
  }

  lemma NothingOffered<B>(s: State<B>)
    requires Inv(s) && s.semConsume <= 0 && Sum(s.producers, InFlight) + Sum(s.consumers, InFlight) <= 0
    ensures Drained(s) && StepsLeft(s) == 0
  {
    NobodyInFlight(s);
    SumNonNegative(s.producers, InFlight);
    SumNonNegative(s.consumers, InFlight);
    SumUpperBound(s.producers, StageLeft, 0);
    SumUpperBound(s.consumers, StageLeft, 0);
    SumNonNegative(s.producers, StageLeft);
    SumNonNegative(s.consumers, StageLeft);
  }

  /** Until then somebody can go on. */
  lemma NextDrain<B>(s: State<B>, item: B) returns (e: Event<B>)
    requires Inv(s) && s.consumers != []
    requires s.semConsume > 0 || Sum(s.producers, InFlight) + Sum(s.consumers, InFlight) > 0
    ensures DrainStep(s, e).Some?
  {
    if Sum(s.producers, InFlight) + Sum(s.consumers, InFlight) > 0 {
      e := InFlightStep(s, item);
    } else {
      NobodyInFlight(s);
      e := Consume(0);
    }
  }

  lemma {:induction false} DrainsDown<B>(s: State<B>, item: B) returns (es: seq<Event<B>>)
    requires Inv(s) && s.consumers != []
    ensures Exec(DrainStep<B>, s, es).Some? && Drained(Exec(DrainStep<B>, s, es).value) && |es| == StepsLeft(s)
    decreases StepsLeft(s)
  {
    if s.semConsume > 0 || Sum(s.producers, InFlight) + Sum(s.consumers, InFlight) > 0 {
      var e := NextDrain(s, item);
      var s' := DrainOne(s, e);
      StepsLeftNonNegative(s');
      var rest := DrainsDown(s', item);
      es := [e] + rest;
      assert es[1..] == rest;
    } else {
      NothingOffered(s);
      es := [];
    }
  }

  /** From every point of every run with a consumer: without new productions every run is part of one
      of exactly `StepsLeft` steps, after which everything produced is consumed. What is still copied
      in are the blocks of the producers in flight. */
  lemma NoStrandedBlock<B(!new)>(slots: seq<B>, erased: Option<B>, producers: nat, consumers: nat, s: State<B>,
        es: seq<Event<B>>, item: B)
    returns (more: seq<Event<B>>)
    requires ReachableRing(slots, erased, producers, consumers, s) && StartsErased(slots, erased)
    requires consumers > 0 && Exec(DrainStep<B>, s, es).Some?
    ensures Exec(DrainStep<B>, s, es + more).Some? && |es + more| == StepsLeft(s)
    ensures var t := Exec(DrainStep<B>, s, es + more).value;
      Drained(t) && s.produced <= t.produced && |t.produced| == |s.produced| + Sum(s.producers, Before)
  {
    Invariant(slots, erased, producers, consumers, s);
    DrainRun(s, es);
    var u := Exec(DrainStep<B>, s, es).value;
    more := DrainsDown(u, item);
    ExecAppend(DrainStep<B>, s, es, more);
    DrainRun(u, more);
    var t := Exec(DrainStep<B>, u, more).value;
    NothingInFlight(t);
  }

  lemma NothingInFlight<B>(s: State<B>)
    requires AllIdleIn(s.producers)
    ensures Promised(s) == |s.produced|
  {
    SumUpperBound(s.producers, Before, 0);
    SumNonNegative(s.producers, Before);
  }

  ghost predicate CanDrain<B(!new)>(s: State<B>) {
    exists es: seq<Event<B>> :: Exec(DrainStep<B>, s, es).Some? && Drained(Exec(DrainStep<B>, s, es).value)
  }

  /** So it can be consumed in every run, exactly when there is a consumer or nothing can be produced. */
  lemma DrainsExactlyWhen<B(!new)>(slots: seq<B>, erased: Option<B>, producers: nat, consumers: nat, item: B)
    requires StartsErased(slots, erased)
    ensures (forall s: State<B> :: ReachableRing(slots, erased, producers, consumers, s) ==> CanDrain(s))
       <==> consumers > 0 || producers == 0 || slots == []
  {
    if consumers > 0 {
      forall s: State<B> | ReachableRing(slots, erased, producers, consumers, s) ensures CanDrain(s) {
        Invariant(slots, erased, producers, consumers, s);
        var es := DrainsDown(s, item);
      }
    } else if producers == 0 || slots == [] {
      forall s: State<B> | ReachableRing(slots, erased, producers, 0, s) ensures CanDrain(s) {
        NothingProduced(slots, erased, producers, s);
      }
    } else {
      var s := Filled(slots, erased, producers, item, 1);
      Invariant(slots, erased, producers, 0, s);
      assert forall e: Event<B> :: DrainStep(s, e).None?;
      assert !Drained(s) && !CanDrain(s);
    }
  }

  /** Without consumers, and without producers or slots, the ring stays as it is. */
  lemma NothingProduced<B(!new)>(slots: seq<B>, erased: Option<B>, producers: nat, s: State<B>)
    requires ReachableRing(slots, erased, producers, 0, s) && (producers == 0 || slots == [])
    ensures CanDrain(s)
  {
    var s0 := Initial(slots, erased, producers, 0);
    var inv := (s: State<B>) => s == s0;
    assert Inductive(Step<B>, inv);
    Invariance(Step<B>, inv, s0, s);
    assert Exec(DrainStep<B>, s, []) == Some(s);
  }

  // ----- Numbered products -----

  const EMPTY := -1

  /** In the version with numbered products a producer copies in the next number. */
  function NumberedStep(s: State<int>, e: Event<int>): Option<State<int>> {
    if e.Produce? && e.item != |s.produced| then None else Step(s, e)
  }

  ghost predicate ReachableNumbered(n: nat, producers: nat, consumers: nat, s: State<int>) {
    Reachable(NumberedStep, Initial(seq(n, _ => EMPTY), Some(EMPTY), producers, consumers), s)
  }

  ghost predicate Numbered(n: nat, producers: nat, consumers: nat, s: State<int>) {
    && ReachableRing(seq(n, _ => EMPTY), Some(EMPTY), producers, consumers, s)
    && forall k :: 0 <= k < |s.produced| ==> s.produced[k] == k
  }

  /** Position `k` holds an unread product. */
  predicate Unread(s: State<int>, k: nat) { |s.consumed| <= k < |s.produced| }

  /** Products are consumed in the order of their numbers; while the mutex is free `wr_index` is
      the next number modulo the capacity; and a slot is -1 exactly when it holds no product. */
  lemma NumberedProducts(n: nat, producers: nat, consumers: nat, s: State<int>, i: nat)
    requires ReachableNumbered(n, producers, consumers, s) && i < n
    ensures forall k :: 0 <= k < |s.consumed| ==> s.consumed[k] == k
    ensures s.mutex == 1 ==> s.wr == |s.produced| % n && s.rd == |s.consumed| % n
    ensures |s.slots| == n && (s.slots[i] == -1 <==> !exists k: nat :: Unread(s, k) && k % n == i)
  {
    NumberedReachable(n, producers, consumers, s);
    Invariant(seq(n, _ => EMPTY), Some(EMPTY), producers, consumers, s);
    Counts(s);
    NumberedSlot(n, s, i);
  }

  lemma NumberedSlot(n: nat, s: State<int>, i: nat)
    requires Contents(s) && s.erased == Some(-1) && |s.slots| == n && i < n
    requires forall k :: 0 <= k < |s.produced| ==> s.produced[k] == k
    ensures s.slots[i] == -1 <==> !exists k: nat :: Unread(s, k) && k % n == i
  {
    if k: nat :| Unread(s, k) && k % n == i {
      assert s.slots[k % n] == s.produced[k] == k;
    } else {
      var k := ResidueWithin(|s.consumed|, n, i);
      assert !Unread(s, k);
      assert s.slots[k % n] == -1;
    }
  }

  lemma NumberedReachable(n: nat, producers: nat, consumers: nat, s: State<int>)
    requires ReachableNumbered(n, producers, consumers, s)
    ensures Numbered(n, producers, consumers, s)
  {
    var s0 := Initial(seq(n, _ => EMPTY), Some(EMPTY), producers, consumers);
    ReachableStart(Step<int>, s0);
    var inv := (s: State<int>) => Numbered(n, producers, consumers, s);
    assert Inductive(NumberedStep, inv) by {
      forall s, e | inv(s) && NumberedStep(s, e).Some? ensures inv(NumberedStep(s, e).value) {
        ReachableStep(Step<int>, s0, s, e);
      }
    }
    Invariance(NumberedStep, inv, s0, s);
  }
}
