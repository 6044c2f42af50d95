// The timeout scan of the reactor: which slots it looks at, whom it closes.

module ReactorTimeouts {
  import opened Machines
  import opened Arith
  import opened ReactorSteps
  import opened ReactorRuns

  /** The slot of the scan's visit number `v`, counted from the start of the program. */
  function Visited(v: nat, clients: nat): nat {
    Wrapped(Cursor(v, clients), clients)
  }

  /** The scan goes round the client slots for ever and never meets the listener's slot. */
  lemma {:induction false} VisitsGoRound(v: nat, clients: nat)
    requires clients >= 1
    ensures Visited(v, clients) == v % clients < clients
    decreases v
  {
    if v == 0 {
      DivModUnique(0, clients, 0, 0);
    } else {
      VisitsGoRound(v - 1, clients);
      ModSucc(v - 1, clients);
    }
  }

  predicate VisitedAt(i: nat, clients: nat, from: nat, visits: nat, v: nat) {
    from <= v < from + visits && Visited(v, clients) == i
  }

  /** Slot `i` is looked at by one of `visits` visits, the first of which has number `from`. */
  ghost predicate IsVisited(i: nat, clients: nat, from: nat, visits: nat) {
    exists v: nat :: VisitedAt(i, clients, from, visits, v)
  }

  /** Any `rounds` consecutive rounds look at every client slot exactly when they make at
      least as many visits as there are slots: with 100 visits and 1024 slots, 11 rounds. */
  lemma ScanCoverage(clients: nat, perRound: nat, first: nat, rounds: nat)
    requires clients >= 1
    ensures (forall i: nat :: i < clients ==> IsVisited(i, clients, perRound * first, perRound * rounds))
       <==> perRound * rounds >= clients
  {
    var base, n := perRound * first, perRound * rounds;
    if n >= clients {
      forall i: nat | i < clients ensures IsVisited(i, clients, base, n) {
        var v := VisitTo(i, clients, base);
        assert VisitedAt(i, clients, base, n, v);
      }
    } else {
      var i := (base + n) % clients;
      forall v: nat ensures !VisitedAt(i, clients, base, n, v) {
        if base <= v < base + n {
          VisitsGoRound(v, clients);
          ModDistinct(v, base + n, clients);
        }
      }
      assert !IsVisited(i, clients, base, n);
    }
  }

  /** Among any `clients` consecutive visits one goes to slot `i`. */
  lemma VisitTo(i: nat, clients: nat, base: nat) returns (v: nat)
    requires i < clients
    ensures base <= v < base + clients && Visited(v, clients) == i
  {
    v := ResidueWithin(base, clients, i);
    VisitsGoRound(v, clients);
  }

  /** For the shipped sizes 11 rounds are enough and 10 are not. */
  lemma ShippedCoverage(first: nat)
    ensures forall i: nat :: i < 1024 ==> IsVisited(i, 1024, 100 * first, 1100)
    ensures !forall i: nat :: i < 1024 ==> IsVisited(i, 1024, 100 * first, 1000)
  {
    ScanCoverage(1024, 100, first, 11);
    ScanCoverage(1024, 100, first, 10);
  }

  // ----- Whom the scan closes -----

  lemma FirstVisit(i: nat, clients: nat, from: nat, visits: nat)
    requires visits > 0
    ensures IsVisited(i, clients, from, visits)
       <==> Visited(from, clients) == i || IsVisited(i, clients, from + 1, visits - 1)
  {
    var next, fewer := from + 1, visits - 1;
    if Visited(from, clients) == i {
      assert VisitedAt(i, clients, from, visits, from);
    }
    if IsVisited(i, clients, from, visits) {
      var v :| VisitedAt(i, clients, from, visits, v);
      assert v != from ==> VisitedAt(i, clients, next, fewer, v);
    }
    if IsVisited(i, clients, next, fewer) {
      var v :| VisitedAt(i, clients, next, fewer, v);
      assert VisitedAt(i, clients, from, visits, v);
    }
  }

  predicate Idle(ev: Slot, now: int) {
    ev.status == 1 && now - ev.lastActive >= IDLE_LIMIT
  }

  function Scanned(ev: Slot, now: int): Slot { if Idle(ev, now) then ev.(status := 0) else ev }

  lemma ScannedSlot(t: Table, i: nat, now: int)
    requires i < |t.slots|
    ensures ScanSlot(t, i, now).slots == t.slots[i := Scanned(t.slots[i], now)]
  {}

  lemma FirstOfScan(t: Table, before: nat, now: int, visits: nat, clients: nat)
    requires |t.slots| == clients + 1 && clients >= 1 && visits > 0
    ensures Visited(before, clients) < clients
    ensures ScanSlots(t, Cursor(before, clients), now, visits) ==
            ScanSlots(ScanSlot(t, Visited(before, clients), now), Cursor(before + 1, clients), now, visits - 1)
  {
    VisitsGoRound(before, clients);
  }

  /** A round closes a registered slot exactly when it looks at it and finds it idle for the
      limit; every other slot it leaves alone. */
  lemma {:induction false} ScanClosesIdle(t: Table, before: nat, now: int, visits: nat, clients: nat, i: nat)
    requires |t.slots| == clients + 1 && clients >= 1 && i <= clients
    ensures ScanSlots(t, Cursor(before, clients), now, visits).table.slots[i] ==
      if IsVisited(i, clients, before, visits) then Scanned(t.slots[i], now) else t.slots[i]
    decreases visits
  {
    if visits == 0 {
      assert forall v: nat :: !VisitedAt(i, clients, before, visits, v);
    } else {
      FirstOfScan(t, before, now, visits, clients);
      ScannedSlot(t, Visited(before, clients), now);
      ScanClosesIdle(ScanSlot(t, Visited(before, clients), now), before + 1, now, visits - 1, clients, i);
      FirstVisit(i, clients, before, visits);
    }
  }

  // ----- Idle connections are closed -----

  /** Slot `i` is registered and was last re-armed no later than `since`. */
  predicate IdleSince(s: State, i: nat, since: int) {
    i < |s.table.slots| - 1 && s.table.slots[i].status == 1 && s.table.slots[i].lastActive <= since
  }

  function Rounds(es: seq<Event>): nat {
    if es == [] then 0 else (if es[0].ScanRound? then 1 else 0) + Rounds(es[1..])
  }

  ghost predicate ScansAfter(es: seq<Event>, now: int) {
    forall k :: 0 <= k < |es| && es[k].ScanRound? ==> es[k].now >= now
  }

  /** `k` events into the run the connection in slot `i` is closed or re-armed. */
  ghost predicate Settled(s: State, es: seq<Event>, i: nat, since: int, k: nat) {
    k <= |es| && Exec(Step, s, es[..k]).Some? && !IdleSince(Exec(Step, s, es[..k]).value, i, since)
  }

  /** A run whose scans all come 60 seconds after `since`, and are enough to look at every
      slot, does not leave a connection registered that was not re-armed after `since`:
      somewhere along the run the slot was closed or re-armed. */
  lemma IdleConnectionsAreClosed(clients: nat, perRound: nat, s: State, es: seq<Event>, i: nat, since: int) returns (k: nat)
    requires ReachableReactor(clients, perRound, s) && Exec(Step, s, es).Some?
    requires ScansAfter(es, since + IDLE_LIMIT) && perRound * Rounds(es) >= clients && clients >= 1
    ensures Settled(s, es, i, since, k)
  {
    if i < clients {
      var v := VisitTo(i, clients, perRound * s.rounds);
      MulSum(perRound, s.rounds, Rounds(es));
      k := VisitedRun(clients, perRound, s, es, i, since, v, s.rounds + Rounds(es));
    } else {
      RoundStarts(clients, perRound, s);
      k := 0;
      SettledNow(s, es, i, since);
    }
  }

  lemma RoundStarts(clients: nat, perRound: nat, s: State)
    requires ReachableReactor(clients, perRound, s)
    ensures |s.table.slots| == clients + 1 && s.perRound == perRound
    ensures s.checkpos == Cursor(perRound * s.rounds, clients)
  {
    Invariant(clients, perRound, s);
  }

  /** A late enough scan that looks at slot `i` leaves nothing idle there. */
  lemma ScanLeavesNoIdle(t: Table, before: nat, now: int, visits: nat, clients: nat, i: nat, since: int, v: nat)
    requires |t.slots| == clients + 1 && i < clients && now >= since + IDLE_LIMIT
    requires VisitedAt(i, clients, before, visits, v)
    ensures var ev := ScanSlots(t, Cursor(before, clients), now, visits).table.slots[i];
      !(ev.status == 1 && ev.lastActive <= since)
  {
    ScanClosesIdle(t, before, now, visits, clients, i);
  }

  lemma VisitingRound(clients: nat, perRound: nat, s: State, now: int, i: nat, since: int, v: nat)
    requires ReachableReactor(clients, perRound, s) && i < clients
    requires Step(s, ScanRound(now)).Some? && now >= since + IDLE_LIMIT
    requires perRound * s.rounds <= v < perRound * (s.rounds + 1) && Visited(v, clients) == i
    ensures !IdleSince(Step(s, ScanRound(now)).value, i, since)
  {
    RoundStarts(clients, perRound, s);
    MulSucc(perRound, s.rounds);
    ScanLeavesNoIdle(s.table, perRound * s.rounds, now, perRound, clients, i, since, v);
  }

  lemma NextReachable(clients: nat, perRound: nat, s: State, e: Event)
    requires ReachableReactor(clients, perRound, s) && Step(s, e).Some?
    ensures ReachableReactor(clients, perRound, Step(s, e).value)
    ensures Step(s, e).value.rounds == s.rounds + if e.ScanRound? then 1 else 0
  {
    var lfd, now :| Reachable(Step, Initial(clients, perRound, lfd, now), s);
    ReachableStep(Step, Initial(clients, perRound, lfd, now), s, e);
  }

  lemma SettledLater(s: State, es: seq<Event>, i: nat, since: int, k: nat)
    requires es != [] && Step(s, es[0]).Some? && Settled(Step(s, es[0]).value, es[1..], i, since, k)
    ensures Settled(s, es, i, since, k + 1)
  {
    ExecPrefix(Step, s, es, k);
  }

  lemma SettledNow(s: State, es: seq<Event>, i: nat, since: int)
    requires !IdleSince(s, i, since)
    ensures Settled(s, es, i, since, 0)
  {
    assert es[..0] == [];
  }

  /** The run comes to its round number `total` with visit `v` behind it. */
  lemma {:induction false} VisitedRun(clients: nat, perRound: nat, s: State, es: seq<Event>, i: nat, since: int,
      v: nat, total: nat)
    returns (k: nat)
    requires ReachableReactor(clients, perRound, s) && Exec(Step, s, es).Some? && i < clients
    requires ScansAfter(es, since + IDLE_LIMIT) && total == s.rounds + Rounds(es)
    requires perRound * s.rounds <= v < perRound * total && Visited(v, clients) == i
    ensures Settled(s, es, i, since, k)
    decreases |es|
  {
    if !IdleSince(s, i, since) {
      k := 0;
      SettledNow(s, es, i, since);
    } else {
      assert es != [];
      var s1 := Step(s, es[0]).value;
      NextReachable(clients, perRound, s, es[0]);
      if es[0].ScanRound? && v < perRound * (s.rounds + 1) {
        VisitingRound(clients, perRound, s, es[0].now, i, since, v);
        k := 0;
        SettledNow(s1, es[1..], i, since);
      } else {
        k := VisitedRun(clients, perRound, s1, es[1..], i, since, v, total);
      }
      SettledLater(s, es, i, since, k);
      k := k + 1;
    }
  }
}
