// Which connections of the reactor are open: what every event does to its slot and its descriptor,
// whom the timeout scan closes, and who is never closed.

module ReactorCloses {
  import opened Bytes
  import opened Machines
  import opened ReactorSteps
  import opened ReactorRuns
  import opened ReactorEcho
  import opened ReactorTimeouts

  // ----- Registration -----

  /** A slot with status 1 is modified and any other added; each is refused for a descriptor that is not
      in the epoll set, or is in it. The slot counts as registered whatever becomes of the call. */
  lemma EventAddRegisters(t: Table, i: nat, want: Want, room: bool)
    requires i < |t.slots| && t.slots[i].fd in t.kernel.open
    ensures var ev, t' := t.slots[i], EventAdd(t, i, want, room);
      && t'.slots == t.slots[i := ev.(events := want, status := 1)]
      && var accepted := (ev.fd in t.kernel.interest) == (ev.status == 1);
      && t'.kernel.addFailures == t.kernel.addFailures + (if accepted then 0 else 1)
      && t'.kernel.interest == if accepted && (ev.status == 1 || room) then t.kernel.interest[ev.fd := Registration(i, want)] else t.kernel.interest
  {}

  /** Deleting undoes adding, and once is enough. */
  lemma EventDelUndoes(t: Table, i: nat, want: Want)
    requires i < |t.slots| && t.slots[i].fd in t.kernel.open && t.slots[i].fd !in t.kernel.interest && t.slots[i].status == 0
    ensures var t' := EventDel(EventAdd(t, i, want, true), i);
      && t'.kernel == t.kernel && t'.slots == t.slots[i := t.slots[i].(events := want)]
      && EventDel(t', i) == t'
  {
    assert t.kernel.interest[t.slots[i].fd := Registration(i, want)] - {t.slots[i].fd} == t.kernel.interest;
  }

  // ----- What an event does to its slot -----

  /** Slot `i` of `t'` has descriptor `fd`, registered, re-armed at `now`, and waits for `want`. */
  predicate Armed(t': Table, i: nat, fd: int, want: Want, now: int) {
    && i < |t'.slots| && t'.slots[i].status == 1 && t'.slots[i].fd == fd
    && t'.slots[i].events == want && t'.slots[i].lastActive == now
  }

  ghost predicate OtherSlotsKept(t: Table, t': Table, i: nat) {
    |t'.slots| == |t.slots| && forall j: nat :: j < |t.slots| && j != i ==> t'.slots[j] == t.slots[j]
  }

  /** The descriptor is closed and its slot is free. */
  ghost predicate Dropped(t: Table, t': Table, i: nat, fd: int) {
    && i < |t'.slots| && t'.slots[i].status == 0
    && t'.kernel.open == t.kernel.open - {fd}
  }

  lemma InputEvent(t: Table, e: Report, io: Io, io2: Io)
    requires Inv(t) && ReportOk(t, e) && IoPossible(t, io) && e.slot < |t.slots| - 1 && e.inReady
    ensures var t' := Dispatch(t, e, io, io2);
      && OtherSlotsKept(t, t', e.slot) && t'.kernel.unattached == t.kernel.unattached
      && if io.received.Data? then
           && t'.kernel.open == t.kernel.open && Armed(t', e.slot, e.fd, WantOut, io.now)
           && t'.slots[e.slot].buf == io.received.bytes
           && Log(t'.kernel.inbox, e.conn) == Log(t.kernel.inbox, e.conn) + io.received.bytes
         else Dropped(t, t', e.slot, e.fd)
  {
    assert SlotOf(t, e.fd) && Registered(t, e.slot);
    if io.received.Data? {
      RecvShape(t, e.slot, io);
    } else {
      CloseShape(t, e.slot, io);
    }
  }

  /** How much of the slot's bytes goes out. */
  function Goes(ev: Slot, io: Io): int { if io.sent < ev.len then io.sent else ev.len }

  lemma OutputEvent(t: Table, e: Report, io: Io, io2: Io)
    requires Inv(t) && ReportOk(t, e) && e.slot < |t.slots| - 1 && e.outReady
    ensures var t', ev := Dispatch(t, e, io, io2), t.slots[e.slot];
      && OtherSlotsKept(t, t', e.slot) && t'.kernel.unattached == t.kernel.unattached
      && if io2.sent > 0 && ev.len > 0 then
           && t'.kernel.open == t.kernel.open && Armed(t', e.slot, e.fd, WantIn, io2.now)
           && Goes(ev, io2) <= |ev.buf|
           && Log(t'.kernel.outbox, e.conn) == Log(t.kernel.outbox, e.conn) + ev.buf[..Goes(ev, io2)]
         else Dropped(t, t', e.slot, e.fd) && t'.kernel.outbox == t.kernel.outbox
  {
    assert SlotOf(t, e.fd) && Registered(t, e.slot);
    var ev := t.slots[e.slot];
    assert Text(ev) == ev.buf[..ev.len];
    if io2.sent > 0 && ev.len > 0 {
      SendShape(t, e.slot, io2);
    } else {
      CloseShape(t, e.slot, io2);
    }
  }

  /** In every run, the event of a client's slot ends its connection exactly at the end of the stream,
      at an error, or where send takes nothing; otherwise the slot is re-armed, to send what it
      received or to receive again. */
  lemma ClientEvent(clients: nat, perRound: nat, s: State, io: Io, io2: Io)
    requires ReachableReactor(clients, perRound, s) && Step(s, Handle(io, io2)).Some?
    requires s.pending[0].slot < clients && (s.pending[0].inReady || s.pending[0].outReady)
    ensures s.pending[0].slot < |s.table.slots|
    ensures var t, t', e := s.table, Step(s, Handle(io, io2)).value.table, s.pending[0];
      var ev := t.slots[e.slot];
      var ends := if e.inReady then !io.received.Data? else io2.sent <= 0 || ev.len == 0;
      && OtherSlotsKept(t, t', e.slot) && t'.kernel.unattached == t.kernel.unattached
      && (ends ==> Dropped(t, t', e.slot, e.fd))
      && (!ends ==> t'.kernel.open == t.kernel.open)
      && (!ends && e.inReady ==>
            Armed(t', e.slot, e.fd, WantOut, io.now) && t'.slots[e.slot].buf == io.received.bytes)
      && (!ends && !e.inReady ==> Armed(t', e.slot, e.fd, WantIn, io2.now))
      && (!ends && e.outReady ==>
            0 < Goes(ev, io2) <= |ev.buf| &&
            Log(t'.kernel.outbox, e.conn) == Log(t.kernel.outbox, e.conn) + ev.buf[..Goes(ev, io2)])
  {
    Invariant(clients, perRound, s);
    var t, e := s.table, s.pending[0];
    assert ReportOk(t, e);
    if e.inReady {
      InputEvent(t, e, io, io2);
    } else {
      OutputEvent(t, e, io, io2);
    }
  }

  /** `i` is the lowest free slot of a client. */
  ghost predicate LowestFree(t: Table, i: nat) {
    i < |t.slots| - 1 && t.slots[i].status == 0 && forall j: nat :: j < i ==> t.slots[j].status != 0
  }

  lemma FreeSlot(t: Table)
    requires TableInv(t)
    ensures var i := FirstFree(t.slots, 0);
      if i < |t.slots| - 1 then LowestFree(t, i) else forall j: nat :: !LowestFree(t, j)
  {
    var i := FirstFree(t.slots, 0);
    forall j: nat | j < |t.slots| - 1 && i == |t.slots| - 1 ensures t.slots[j].status != 0 {}
  }

  /** A new connection is attached exactly when it is non-blocking and a client's slot is free; it gets
      the lowest one. Otherwise it is open and has none. */
  lemma ListenerEvent(clients: nat, perRound: nat, s: State, io: Io, io2: Io, i: nat)
    requires ReachableReactor(clients, perRound, s) && Step(s, Handle(io, io2)).Some?
    requires s.pending[0].slot == clients && s.pending[0].inReady
    ensures var t, t' := s.table, Step(s, Handle(io, io2)).value.table;
      match io.accepted
      case AcceptFailed => t' == t
      case Accepted(fd, nonblocking) =>
        var c := t.kernel.nextConn;
        && t'.kernel.open == t.kernel.open[fd := c] && t'.kernel.nextConn == c + 1
        && (nonblocking && LowestFree(t, i) ==>
              OtherSlotsKept(t, t', i) && Armed(t', i, fd, WantIn, io.now) && t'.kernel.unattached == t.kernel.unattached)
        && (!nonblocking || !(exists j: nat :: LowestFree(t, j)) ==>
              t'.slots == t.slots && t'.kernel.unattached == t.kernel.unattached + {c})
  {
    Invariant(clients, perRound, s);
    var t, e := s.table, s.pending[0];
    assert ReportOk(t, e) && SlotOf(t, e.fd);
    assert Registered(t, e.slot);
    FreeSlot(t);
    assert Step(s, Handle(io, io2)).value.table == Accept(t, io);
    if io.accepted.Accepted? {
      if Attaches(t, io) {
        RegisteredAreOpen(t);
        AcceptShape(t, io);
      } else {
        LeakShape(t, io);
      }
    }
  }

  // ----- Whose descriptor a scan closes -----

  /** The scan comes by slot `i`, which has `fd` and has been idle for a minute. */
  ghost predicate ScannedOut(t: Table, i: nat, fd: int, now: int, clients: nat, from: nat, visits: nat) {
    && i < |t.slots| && IsVisited(i, clients, from, visits)
    && t.slots[i].status == 1 && t.slots[i].fd == fd && now - t.slots[i].lastActive >= 60
  }

  lemma ScanOne(t: Table, i: nat, now: int)
    requires i < |t.slots|
    ensures var t', ev := ScanSlot(t, i, now), t.slots[i];
      && t'.kernel.unattached == t.kernel.unattached
      && if ev.status == 1 && now - ev.lastActive >= 60 then t'.kernel.open == t.kernel.open - {ev.fd} && t'.slots == t.slots[i := ev.(status := 0)]
         else t' == t
  {}

  ghost predicate SomeScanned(t: Table, fd: int, now: int, clients: nat, from: nat, visits: nat) {
    exists i: nat :: ScannedOut(t, i, fd, now, clients, from, visits)
  }

  predicate ScannedNow(t: Table, v: nat, fd: int, now: int) {
    v < |t.slots| && t.slots[v].status == 1 && t.slots[v].fd == fd && now - t.slots[v].lastActive >= 60
  }

  /** It is the first visit's slot, or the slot of a later visit. */
  lemma FirstScanned(t: Table, fd: int, now: int, clients: nat, from: nat, visits: nat)
    requires |t.slots| == clients + 1 && clients >= 1 && visits > 0
    ensures var v := Visited(from, clients);
      v < clients && (SomeScanned(t, fd, now, clients, from, visits)
      <==> ScannedNow(t, v, fd, now) || SomeScanned(ScanSlot(t, v, now), fd, now, clients, from + 1, visits - 1))
  {
    var v, next, fewer := Visited(from, clients), from + 1, visits - 1;
    VisitsGoRound(from, clients);
    var t1 := ScanSlot(t, v, now);
    ScanOne(t, v, now);
    if i: nat :| ScannedOut(t, i, fd, now, clients, from, visits) {
      FirstVisit(i, clients, from, visits);
      assert ScannedNow(t, v, fd, now) || ScannedOut(t1, i, fd, now, clients, next, fewer);
    }
    if i: nat :| ScannedOut(t1, i, fd, now, clients, next, fewer) {
      FirstVisit(i, clients, from, visits);
      assert ScannedOut(t, i, fd, now, clients, from, visits);
    }
    if ScannedNow(t, v, fd, now) {
      FirstVisit(v, clients, from, visits);
      assert ScannedOut(t, v, fd, now, clients, from, visits);
    }
  }

  /** Of the open descriptors a scan closes those and no others. */
  lemma {:induction false} ScanClosesDescriptors(t: Table, from: nat, now: int, visits: nat, clients: nat, fd: int)
    requires |t.slots| == clients + 1 && clients >= 1
    ensures var t' := ScanSlots(t, Cursor(from, clients), now, visits).table;
      && (fd in t'.kernel.open <==> fd in t.kernel.open && !SomeScanned(t, fd, now, clients, from, visits))
      && (fd in t'.kernel.open ==> t'.kernel.open[fd] == t.kernel.open[fd])
      && t'.kernel.unattached == t.kernel.unattached
    decreases visits
  {
    if visits == 0 {
      forall i: nat ensures !IsVisited(i, clients, from, visits) {
        assert forall v: nat :: !VisitedAt(i, clients, from, visits, v);
      }
    } else {
      var v := Visited(from, clients);
      FirstOfScan(t, from, now, visits, clients);
      FirstScanned(t, fd, now, clients, from, visits);
      ScanOne(t, v, now);
      ScanClosesDescriptors(ScanSlot(t, v, now), from + 1, now, visits - 1, clients, fd);
    }
  }

  /** A round of the scan closes an open descriptor exactly when it looks at its slot and finds it idle
      for a minute. */
  lemma ScanRoundCloses(clients: nat, perRound: nat, s: State, now: int, fd: int)
    requires ReachableReactor(clients, perRound, s) && Step(s, ScanRound(now)).Some?
    ensures var k, k' := s.table.kernel, Step(s, ScanRound(now)).value.table.kernel;
      && (fd in k.open ==> (fd !in k'.open <==> SomeScanned(s.table, fd, now, clients, perRound * s.rounds, perRound)))
      && (fd in k'.open ==> fd in k.open && k'.open[fd] == k.open[fd])
  {
    RoundStarts(clients, perRound, s);
    ScanClosesDescriptors(s.table, perRound * s.rounds, now, perRound, clients, fd);
  }

  // ----- Every open descriptor is accounted for -----

  predicate HasFd(t: Table, i: nat, fd: int) {
    i < |t.slots| && t.slots[i].status == 1 && t.slots[i].fd == fd
  }

  ghost predicate Held(t: Table, fd: int) { exists i: nat :: HasFd(t, i, fd) }

  ghost predicate IsOpen(k: Kernel, c: nat) { exists fd :: fd in k.open && k.open[fd] == c }

  /** The open descriptors are those of the registered slots, the listener's among them, and those of
      the connections that accept did not attach. */
  ghost predicate OpenOk(t: Table) {
    forall fd :: fd in t.kernel.open ==> (t.kernel.open[fd] in t.kernel.unattached <==> !Held(t, fd))
  }

  lemma SameHolders(t: Table, t': Table)
    requires OpenOk(t) && t'.kernel.open == t.kernel.open && t'.kernel.unattached == t.kernel.unattached
    requires |t'.slots| == |t.slots|
    requires forall i: nat, fd :: HasFd(t', i, fd) <==> HasFd(t, i, fd)
    ensures OpenOk(t')
  {
    forall fd ensures Held(t', fd) <==> Held(t, fd) {}
  }

  lemma DroppedHolders(t: Table, t': Table, i: nat, fd: int)
    requires OpenOk(t) && HasFd(t, i, fd) && Dropped(t, t', i, fd) && OtherSlotsKept(t, t', i)
    requires t'.kernel.unattached == t.kernel.unattached
    ensures OpenOk(t')
  {
    forall g | g != fd ensures Held(t', g) <==> Held(t, g) {
      if j: nat :| HasFd(t, j, g) {
        assert HasFd(t', j, g);
      }
      if j: nat :| HasFd(t', j, g) {
        assert HasFd(t, j, g);
      }
    }
  }

  lemma AttachedHolders(t: Table, t': Table, i: nat, fd: int, now: int)
    requires OpenOk(t) && Inv(t) && LowestFree(t, i) && fd !in t.kernel.open
    requires OtherSlotsKept(t, t', i) && Armed(t', i, fd, WantIn, now) && t'.kernel.unattached == t.kernel.unattached
    requires t'.kernel.open == t.kernel.open[fd := t.kernel.nextConn]
    ensures OpenOk(t')
  {
    assert HasFd(t', i, fd);
    forall g | g != fd ensures Held(t', g) <==> Held(t, g) {
      if j: nat :| HasFd(t, j, g) {
        assert HasFd(t', j, g);
      }
      if j: nat :| HasFd(t', j, g) {
        assert HasFd(t, j, g);
      }
    }
  }

  lemma UnattachedHolders(t: Table, t': Table, fd: int)
    requires OpenOk(t) && Inv(t) && fd !in t.kernel.open && t'.slots == t.slots
    requires t'.kernel.open == t.kernel.open[fd := t.kernel.nextConn]
    requires t'.kernel.unattached == t.kernel.unattached + {t.kernel.nextConn}
    ensures OpenOk(t')
  {
    forall g ensures Held(t', g) <==> Held(t, g) {
      if j: nat :| HasFd(t, j, g) {
        assert HasFd(t', j, g);
      }
      if j: nat :| HasFd(t', j, g) {
        assert HasFd(t, j, g);
      }
    }
    forall j: nat | j < |t.slots| && t.slots[j].status == 1 ensures t.slots[j].fd != fd {
      assert Registered(t, j);
    }
    assert !Held(t, fd);
  }

  lemma ScannedHolders(t: Table, i: nat, now: int)
    requires Inv(t) && OpenOk(t) && i < |t.slots| - 1
    ensures OpenOk(ScanSlot(t, i, now))
  {
    ScanOne(t, i, now);
    if ScanSlot(t, i, now) != t {
      DroppedHolders(t, ScanSlot(t, i, now), i, t.slots[i].fd);
    }
  }

  lemma {:induction false} ScanHolders(t: Table, checkpos: nat, now: int, visits: nat)
    requires Inv(t) && OpenOk(t) && |t.slots| > 1 && checkpos < |t.slots|
    ensures OpenOk(ScanSlots(t, checkpos, now, visits).table)
    decreases visits
  {
    if visits > 0 {
      var i := Wrapped(checkpos, |t.slots| - 1);
      ScannedHolders(t, i, now);
      ScanSlotKeeps(t, i, now);
      ScanHolders(ScanSlot(t, i, now), i + 1, now, visits - 1);
    }
  }

  lemma ListenerHolders(t: Table, e: Report, io: Io)
    requires Inv(t) && OpenOk(t) && IoPossible(t, io)
    ensures OpenOk(Accept(t, io))
  {
    FreeSlot(t);
    if Attaches(t, io) {
      RegisteredAreOpen(t);
      AcceptShape(t, io);
      AttachedHolders(t, Accept(t, io), FirstFree(t.slots, 0), io.accepted.fd, io.now);
    } else {
      LeakShape(t, io);
      if io.accepted.Accepted? {
        UnattachedHolders(t, Leaked(t, io.accepted.fd), io.accepted.fd);
      }
    }
  }

  lemma ClientHolders(t: Table, e: Report, io: Io, io2: Io)
    requires Inv(t) && OpenOk(t) && ReportOk(t, e) && IoPossible(t, io) && e.slot < |t.slots| - 1
    ensures OpenOk(Dispatch(t, e, io, io2))
  {
    assert SlotOf(t, e.fd) && Registered(t, e.slot);
    var t' := Dispatch(t, e, io, io2);
    if e.inReady {
      InputEvent(t, e, io, io2);
    } else if e.outReady {
      OutputEvent(t, e, io, io2);
    }
    if e.inReady || e.outReady {
      if t'.slots[e.slot].status == 0 {
        DroppedHolders(t, t', e.slot, e.fd);
      } else {
        SameHolders(t, t');
      }
    }
  }

  lemma DispatchHolders(t: Table, e: Report, io: Io, io2: Io)
    requires Inv(t) && OpenOk(t) && ReportOk(t, e) && IoPossible(t, io)
    ensures OpenOk(Dispatch(t, e, io, io2))
  {
    assert SlotOf(t, e.fd) && Registered(t, e.slot);
    if e.slot == |t.slots| - 1 {
      ListenerHolders(t, e, io);
      assert Dispatch(t, e, io, io2) == if e.inReady then Accept(t, io) else t;
    } else {
      ClientHolders(t, e, io, io2);
    }
  }

  ghost predicate OpenInv(clients: nat, s: State) { StateInv(clients, s) && OpenOk(s.table) }

  lemma OpenStep(clients: nat, s: State, e: Event)
    requires OpenInv(clients, s) && Step(s, e).Some?
    ensures OpenInv(clients, Step(s, e).value)
  {
    StepKeeps(clients, s, e);
    match e
    case ScanRound(now) => ScanHolders(s.table, s.checkpos, now, s.perRound);
    case Poll(batch) =>
    case Handle(io, io2) => DispatchHolders(s.table, s.pending[0], io, io2);
  }

  lemma OpenInvariant(clients: nat, perRound: nat, s: State)
    requires ReachableReactor(clients, perRound, s)
    ensures OpenInv(clients, s)
  {
    var lfd, now :| Reachable(Step, Initial(clients, perRound, lfd, now), s);
    var s0, inv := Initial(clients, perRound, lfd, now), (s: State) => OpenInv(clients, s);
    InitialKeeps(clients, perRound, lfd, now);
    assert HasFd(s0.table, clients, lfd);
    assert Inductive(Step, inv) by {
      forall s, e | inv(s) && Step(s, e).Some? ensures inv(Step(s, e).value) {
        OpenStep(clients, s, e);
      }
    }
    Invariance(Step, inv, s0, s);
  }

  /** In every run a descriptor is open exactly when it is that of a registered slot, the listener's
      among them, or of a connection that accept did not attach; it is never both. */
  lemma OpenDescriptors(clients: nat, perRound: nat, s: State, fd: int)
    requires ReachableReactor(clients, perRound, s)
    ensures Held(s.table, fd) ==> fd in s.table.kernel.open
    ensures fd in s.table.kernel.open ==> (Held(s.table, fd) <==> s.table.kernel.open[fd] !in s.table.kernel.unattached)
  {
    OpenInvariant(clients, perRound, s);
    if i: nat :| HasFd(s.table, i, fd) {
      assert Registered(s.table, i);
    }
  }

  // ----- Who is never closed -----

  /** Descriptor `fd` is open with connection `c`, which has no slot. */
  predicate Stray(t: Table, fd: int, c: nat) {
    fd in t.kernel.open && t.kernel.open[fd] == c && c in t.kernel.unattached
  }

  lemma StrayDispatch(t: Table, e: Report, io: Io, io2: Io, fd: int, c: nat)
    requires Inv(t) && OpenOk(t) && ReportOk(t, e) && IoPossible(t, io) && Stray(t, fd, c)
    ensures Stray(Dispatch(t, e, io, io2), fd, c)
  {
    assert SlotOf(t, e.fd) && Registered(t, e.slot) && HasFd(t, e.slot, e.fd);
    assert Held(t, e.fd);
    if e.slot == |t.slots| - 1 {
      if Attaches(t, io) {
        RegisteredAreOpen(t);
        AcceptShape(t, io);
      } else {
        LeakShape(t, io);
      }
    } else if e.inReady {
      InputEvent(t, e, io, io2);
    } else if e.outReady {
      OutputEvent(t, e, io, io2);
    }
  }

  lemma StrayStep(clients: nat, s: State, e: Event, fd: int, c: nat)
    requires OpenInv(clients, s) && Step(s, e).Some? && Stray(s.table, fd, c)
    ensures Stray(Step(s, e).value.table, fd, c)
  {
    match e
    case ScanRound(now) =>
      ScanClosesDescriptors(s.table, s.perRound * s.rounds, now, s.perRound, clients, fd);
      if i: nat :| ScannedOut(s.table, i, fd, now, clients, s.perRound * s.rounds, s.perRound) {
        assert HasFd(s.table, i, fd);
      }
    case Poll(batch) =>
    case Handle(io, io2) => StrayDispatch(s.table, s.pending[0], io, io2, fd, c);
  }

  lemma {:induction false} StrayRun(clients: nat, s: State, es: seq<Event>, fd: int, c: nat)
    requires OpenInv(clients, s) && Exec(Step, s, es).Some? && Stray(s.table, fd, c)
    ensures Stray(Exec(Step, s, es).value.table, fd, c)
    decreases |es|
  {
    if es != [] {
      StrayStep(clients, s, es[0], fd, c);
      OpenStep(clients, s, es[0]);
      StrayRun(clients, Step(s, es[0]).value, es[1..], fd, c);
    }
  }

  /** A connection that accept did not attach stays open for good. */
  lemma UnattachedStayOpen(clients: nat, perRound: nat, s: State, es: seq<Event>, fd: int)
    requires ReachableReactor(clients, perRound, s) && Exec(Step, s, es).Some?
    requires fd in s.table.kernel.open && s.table.kernel.open[fd] in s.table.kernel.unattached
    ensures var k := Exec(Step, s, es).value.table.kernel; fd in k.open && k.open[fd] == s.table.kernel.open[fd]
  {
    OpenInvariant(clients, perRound, s);
    StrayRun(clients, s, es, fd, s.table.kernel.open[fd]);
  }

  // ----- Idle connections are closed -----

  lemma DroppedIsClosed(t: Table, t': Table, i: nat, fd: int, c: nat)
    requires ConnsInv(t.kernel) && fd in t.kernel.open && t.kernel.open[fd] == c
    requires t'.kernel.open == t.kernel.open - {fd}
    ensures !IsOpen(t'.kernel, c)
  {}

  /** A connection with a slot keeps it until it is closed. */
  lemma KeptDispatch(t: Table, e: Report, io: Io, io2: Io, i: nat, c: nat)
    requires Inv(t) && ReportOk(t, e) && IoPossible(t, io) && i < |t.slots| - 1 && Has(t, i, c)
    ensures var t' := Dispatch(t, e, io, io2); Has(t', i, c) || !IsOpen(t'.kernel, c)
  {
    assert SlotOf(t, e.fd) && Registered(t, e.slot) && Registered(t, i);
    var t' := Dispatch(t, e, io, io2);
    if e.slot == |t.slots| - 1 {
      AcceptKeeps(t, io);
      assert t' == if e.inReady then Accept(t, io) else t;
    } else {
      if e.inReady {
        InputEvent(t, e, io, io2);
      } else if e.outReady {
        OutputEvent(t, e, io, io2);
      }
      if e.slot == i && t'.slots[i].status == 0 {
        DroppedIsClosed(t, t', i, e.fd, c);
      }
    }
  }

  lemma KeptScan(t: Table, from: nat, now: int, visits: nat, clients: nat, i: nat, c: nat)
    requires Inv(t) && |t.slots| == clients + 1 && i < clients && Has(t, i, c)
    ensures var t' := ScanSlots(t, Cursor(from, clients), now, visits).table; Has(t', i, c) || !IsOpen(t'.kernel, c)
  {
    var t' := ScanSlots(t, Cursor(from, clients), now, visits).table;
    ScanKeeps(t, Cursor(from, clients), now, visits);
    ScanClosesIdle(t, from, now, visits, clients, i);
    var fd := t.slots[i].fd;
    ScanClosesDescriptors(t, from, now, visits, clients, fd);
    if t'.slots[i].status == 1 {
      assert Registered(t', i);
    } else {
      assert ScannedOut(t, i, fd, now, clients, from, visits);
      forall g | g in t'.kernel.open ensures t'.kernel.open[g] != c {
        ScanClosesDescriptors(t, from, now, visits, clients, g);
      }
    }
  }

  lemma KeptStep(clients: nat, s: State, e: Event, i: nat, c: nat)
    requires StateInv(clients, s) && Step(s, e).Some? && i < clients && Has(s.table, i, c)
    ensures var t' := Step(s, e).value.table; Has(t', i, c) || !IsOpen(t'.kernel, c)
  {
    match e
    case ScanRound(now) => KeptScan(s.table, s.perRound * s.rounds, now, s.perRound, clients, i, c);
    case Poll(batch) =>
    case Handle(io, io2) => KeptDispatch(s.table, s.pending[0], io, io2, i, c);
  }

  /** `k` events into the run connection `c` is closed, or was re-armed in its slot after `since`. */
  ghost predicate ClosedOrRearmed(s: State, es: seq<Event>, i: nat, c: nat, since: int, k: nat) {
    && k <= |es| && Exec(Step, s, es[..k]).Some?
    && var t := Exec(Step, s, es[..k]).value.table;
       !IsOpen(t.kernel, c) || (Has(t, i, c) && t.slots[i].lastActive > since)
  }

  lemma Later(s: State, es: seq<Event>, i: nat, c: nat, since: int, k: nat)
    requires es != [] && Step(s, es[0]).Some? && ClosedOrRearmed(Step(s, es[0]).value, es[1..], i, c, since, k)
    ensures ClosedOrRearmed(s, es, i, c, since, k + 1)
  {
    ExecPrefix(Step, s, es, k);
  }

  lemma {:induction false} SettledCloses(clients: nat, s: State, es: seq<Event>, i: nat, c: nat, since: int, k0: nat)
    returns (k: nat)
    requires StateInv(clients, s) && i < clients && Has(s.table, i, c)
    requires Exec(Step, s, es).Some? && Settled(s, es, i, since, k0)
    ensures ClosedOrRearmed(s, es, i, c, since, k)
    decreases k0
  {
    assert es[..0] == [];
    if k0 == 0 {
      k := 0;
    } else {
      var s1 := Step(s, es[0]).value;
      KeptStep(clients, s, es[0], i, c);
      StepKeeps(clients, s, es[0]);
      ExecPrefix(Step, s, es, k0 - 1);
      if Has(s1.table, i, c) {
        k := SettledCloses(clients, s1, es[1..], i, c, since, k0 - 1);
      } else {
        k := 0;
        assert es[1..][..0] == [];
      }
      Later(s, es, i, c, since, k);
      k := k + 1;
    }
  }

  /** A run whose scans all come a minute after `since`, and are enough to look at every slot, closes
      every connection that has a slot, or re-arms it after `since`. */
  lemma IdleConnectionsClose(clients: nat, perRound: nat, s: State, es: seq<Event>, i: nat, c: nat, since: int)
    returns (k: nat)
    requires ReachableReactor(clients, perRound, s) && Exec(Step, s, es).Some?
    requires i < clients && Has(s.table, i, c)
    requires ScansAfter(es, since + 60) && perRound * Rounds(es) >= clients
    ensures ClosedOrRearmed(s, es, i, c, since, k)
  {
    assert StateInv(clients, s) by { Invariant(clients, perRound, s); }
    var k0 := IdleConnectionsAreClosed(clients, perRound, s, es, i, since);
    k := SettledCloses(clients, s, es, i, c, since, k0);
  }
}
