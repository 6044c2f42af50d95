// Which received bytes the reactor can send back: a full buffer whose terminator falls into `len`,
// and a connection the epoll set has no room for, are never served again.

module ReactorEcho {
  import opened Bytes
  import opened Machines
  import opened ReactorSteps
  import opened ReactorRuns

  function OutLog(s: State, c: nat): seq<byte> { Log(s.table.kernel.outbox, c) }

  // ----- Connections that are never sent anything more -----

  /** Slot `i` has connection `c`. */
  predicate Has(t: Table, i: nat, c: nat) {
    && i < |t.slots| && t.slots[i].status == 1
    && t.slots[i].fd in t.kernel.open && t.kernel.open[t.slots[i].fd] == c
  }

  /** The epoll set does not have it, or it waits to send nothing. */
  predicate Dumb(t: Table, i: nat, c: nat)
    requires i < |t.slots|
  {
    c in t.kernel.exhausted || (t.slots[i].events == WantOut && t.slots[i].len == 0)
  }

  /** If connection `c` still has a slot, no event of it will move a byte. */
  ghost predicate Muted(t: Table, c: nat) {
    && c < t.kernel.nextConn
    && forall i: nat :: Has(t, i, c) ==> Dumb(t, i, c)
  }

  /** Each slot still has the connection it had, or none, or a new one. */
  ghost predicate NoHandover(t: Table, t': Table) {
    && |t'.slots| == |t.slots| && t.kernel.nextConn <= t'.kernel.nextConn
    && t.kernel.exhausted <= t'.kernel.exhausted
    && forall i: nat, c: nat :: Has(t', i, c) && c < t.kernel.nextConn ==> Has(t, i, c)
  }

  lemma MutedWhere(t: Table, t': Table, c: nat)
    requires Muted(t, c) && NoHandover(t, t')
    requires forall i: nat :: i < |t.slots| && Has(t, i, c) && Has(t', i, c) ==> t'.slots[i] == t.slots[i]
    ensures Muted(t', c)
  {
    forall i: nat | Has(t', i, c) ensures Dumb(t', i, c) {
      assert Has(t, i, c);
    }
  }

  lemma AcceptHandover(t: Table, io: Io)
    requires Inv(t) && IoPossible(t, io)
    ensures NoHandover(t, Accept(t, io)) && OthersKept(t, Accept(t, io), |t.slots|)
  {
    AcceptKeeps(t, io);
    if Attaches(t, io) {
      RegisteredAreOpen(t);
      AcceptShape(t, io);
    } else {
      LeakShape(t, io);
    }
  }

  lemma ClosedHandover(t: Table, i: nat)
    requires Inv(t) && i < |t.slots| - 1 && t.slots[i].status == 1
    ensures NoHandover(t, Table(t.slots[i := t.slots[i].(status := 0)], Close(t.kernel, t.slots[i].fd)))
  {
  }

  lemma RecvHandover(t: Table, i: nat, io: Io)
    requires Inv(t) && IoPossible(t, io) && i < |t.slots| - 1
    requires t.slots[i].status == 1 && t.slots[i].callback == RecvData && t.slots[i].fd in t.kernel.interest
    ensures NoHandover(t, Recv(t, i, t.slots[i].fd, io))
  {
    assert Registered(t, i);
    if io.received.Data? {
      RecvShape(t, i, io);
    } else {
      CloseShape(t, i, io);
      ClosedHandover(t, i);
    }
  }

  lemma SendHandover(t: Table, i: nat, io: Io)
    requires Inv(t) && i < |t.slots| - 1
    requires t.slots[i].status == 1 && t.slots[i].callback == SendData && t.slots[i].fd in t.kernel.interest
    ensures NoHandover(t, Send(t, i, t.slots[i].fd, io))
  {
    assert Registered(t, i);
    if SendCount(t.slots[i], io) > 0 {
      SendShape(t, i, io);
    } else {
      CloseShape(t, i, io);
      ClosedHandover(t, i);
    }
  }

  lemma DispatchHandover(t: Table, e: Report, io: Io, io2: Io)
    requires Inv(t) && ReportOk(t, e) && IoPossible(t, io)
    ensures NoHandover(t, Dispatch(t, e, io, io2))
  {
    assert SlotOf(t, e.fd);
    assert Registered(t, e.slot);
    if e.slot == |t.slots| - 1 {
      AcceptHandover(t, io);
    } else if e.inReady {
      RecvHandover(t, e.slot, io);
    } else if e.outReady {
      SendHandover(t, e.slot, io2);
    }
  }

  /** An event of such a connection closes it. */
  lemma MutedOwnEvent(t: Table, e: Report, io: Io, io2: Io)
    requires Inv(t) && ReportOk(t, e) && Muted(t, e.conn)
    ensures e.slot < |t.slots| - 1
    ensures Dispatch(t, e, io, io2) ==
      if e.outReady then Table(t.slots[e.slot := t.slots[e.slot].(status := 0)], Close(t.kernel, t.slots[e.slot].fd)) else t
  {
    assert SlotOf(t, e.fd);
    assert Registered(t, e.slot) && Has(t, e.slot, e.conn);
    CloseShape(t, e.slot, io2);
  }

  lemma MutedOwn(t: Table, e: Report, io: Io, io2: Io)
    requires Inv(t) && ReportOk(t, e) && IoPossible(t, io) && Muted(t, e.conn)
    ensures var t' := Dispatch(t, e, io, io2);
      Muted(t', e.conn) && Log(t'.kernel.outbox, e.conn) == Log(t.kernel.outbox, e.conn)
  {
    MutedOwnEvent(t, e, io, io2);
    DispatchHandover(t, e, io, io2);
    MutedWhere(t, Dispatch(t, e, io, io2), e.conn);
  }

  lemma MutedOther(t: Table, e: Report, io: Io, io2: Io, c: nat)
    requires Inv(t) && ReportOk(t, e) && IoPossible(t, io) && Muted(t, c) && c != e.conn
    ensures var t' := Dispatch(t, e, io, io2);
      Muted(t', c) && Log(t'.kernel.outbox, c) == Log(t.kernel.outbox, c)
  {
    var t' := Dispatch(t, e, io, io2);
    assert e.slot < |t.slots| && t.slots[e.slot].fd == e.fd by { assert SlotOf(t, e.fd); }
    DispatchHandover(t, e, io, io2);
    assert OthersKept(t, t', e.slot) && OtherLogsKept(t.kernel, t'.kernel, e.conn) by { DispatchKeeps(t, e, io, io2); }
    assert !Has(t, e.slot, c);
    MutedWhere(t, t', c);
  }

  lemma MutedScanSlot(t: Table, i: nat, now: int, c: nat)
    requires Inv(t) && Muted(t, c) && i < |t.slots| - 1
    ensures var t' := ScanSlot(t, i, now);
      Inv(t') && Muted(t', c) && Log(t'.kernel.outbox, c) == Log(t.kernel.outbox, c)
  {
    var t' := ScanSlot(t, i, now);
    ScanSlotKeeps(t, i, now);
    if t' != t {
      assert t' == Table(t.slots[i := t.slots[i].(status := 0)], Close(t.kernel, t.slots[i].fd));
      ClosedHandover(t, i);
      MutedWhere(t, t', c);
    }
  }

  lemma {:induction false} MutedScan(t: Table, checkpos: nat, now: int, visits: nat, c: nat)
    requires Inv(t) && Muted(t, c) && |t.slots| > 1 && checkpos < |t.slots|
    ensures var t' := ScanSlots(t, checkpos, now, visits).table;
      Muted(t', c) && Log(t'.kernel.outbox, c) == Log(t.kernel.outbox, c)
    decreases visits
  {
    if visits > 0 {
      var i := Wrapped(checkpos, |t.slots| - 1);
      MutedScanSlot(t, i, now, c);
      MutedScan(ScanSlot(t, i, now), i + 1, now, visits - 1, c);
    }
  }

  lemma MutedStep(clients: nat, s: State, e: Event, c: nat)
    requires StateInv(clients, s) && Step(s, e).Some? && Muted(s.table, c)
    ensures var s' := Step(s, e).value; Muted(s'.table, c) && OutLog(s', c) == OutLog(s, c)
  {
    match e
    case ScanRound(now) => MutedScan(s.table, s.checkpos, now, s.perRound, c);
    case Poll(batch) =>
    case Handle(io, io2) =>
      if s.pending[0].conn == c {
        MutedOwn(s.table, s.pending[0], io, io2);
      } else {
        MutedOther(s.table, s.pending[0], io, io2, c);
      }
  }

  /** Whatever happens, nothing more is sent on a muted connection. */
  lemma {:induction false} MutedForGood(clients: nat, s: State, es: seq<Event>, c: nat)
    requires StateInv(clients, s) && Exec(Step, s, es).Some? && Muted(s.table, c)
    ensures OutLog(Exec(Step, s, es).value, c) == OutLog(s, c)
    decreases |es|
  {
    if es != [] {
      MutedStep(clients, s, es[0], c);
      StepKeeps(clients, s, es[0]);
      MutedForGood(clients, Step(s, es[0]).value, es[1..], c);
    }
  }

  // ----- Connections that can be sent what they sent -----

  /** Slot `i`, which has connection `c`, waits to send `bytes`, and no event of it is pending. */
  ghost predicate Ready(s: State, i: nat, c: nat, bytes: seq<byte>) {
    && i < |s.table.slots| - 1 && Has(s.table, i, c) && c !in s.table.kernel.exhausted
    && s.table.slots[i].events == WantOut && s.table.slots[i].buf == bytes && s.table.slots[i].len == |bytes|
    && forall k :: 0 <= k < |s.pending| ==> s.pending[k].conn != c
  }

  /** A round of calls in which nothing comes and nothing goes. */
  const QUIET := Io(AcceptFailed, RecvError, 0, 0, true, true)

  lemma QuietStep(clients: nat, s: State, i: nat, c: nat, bytes: seq<byte>)
    requires StateInv(clients, s) && s.pending != [] && Ready(s, i, c, bytes)
    ensures Step(s, Handle(QUIET, QUIET)).Some?
    ensures var s' := Step(s, Handle(QUIET, QUIET)).value;
      StateInv(clients, s') && Ready(s', i, c, bytes) && OutLog(s', c) == OutLog(s, c) && |s'.pending| == |s.pending| - 1
  {
    var e := s.pending[0];
    assert ReportOk(s.table, e) && SlotOf(s.table, e.fd);
    var s' := Step(s, Handle(QUIET, QUIET)).value;
    HandleKeeps(clients, s, QUIET, QUIET);
    DispatchKeeps(s.table, e, QUIET, QUIET);
    QuietExhausted(s.table, e);
  }

  lemma QuietExhausted(t: Table, e: Report)
    requires Inv(t) && ReportOk(t, e)
    ensures e.slot < |t.slots| && Dispatch(t, e, QUIET, QUIET).kernel.exhausted == t.kernel.exhausted
  {
    assert SlotOf(t, e.fd);
    assert Registered(t, e.slot);
    CloseShape(t, e.slot, QUIET);
  }

  lemma {:induction false} Quieten(clients: nat, s: State, i: nat, c: nat, bytes: seq<byte>) returns (es: seq<Event>)
    requires StateInv(clients, s) && Ready(s, i, c, bytes)
    ensures Exec(Step, s, es).Some?
    ensures var t := Exec(Step, s, es).value;
      StateInv(clients, t) && Ready(t, i, c, bytes) && OutLog(t, c) == OutLog(s, c) && t.pending == []
    decreases |s.pending|
  {
    if s.pending == [] {
      es := [];
    } else {
      QuietStep(clients, s, i, c, bytes);
      var e := Handle(QUIET, QUIET);
      var rest := Quieten(clients, Step(s, e).value, i, c, bytes);
      es := [e] + rest;
      assert es[1..] == rest;
    }
  }

  /** One report and one call of send give the bytes back. */
  lemma SendsBack(clients: nat, s: State, i: nat, c: nat, bytes: seq<byte>) returns (es: seq<Event>)
    requires StateInv(clients, s) && Ready(s, i, c, bytes) && s.pending == [] && bytes != []
    ensures Exec(Step, s, es).Some? && OutLog(Exec(Step, s, es).value, c) == OutLog(s, c) + bytes
  {
    var fd := s.table.slots[i].fd;
    assert Registered(s.table, i);
    var e := Report(i, false, true, fd, c);
    var io := QUIET.(sent := |bytes|);
    assert ReportOk(s.table, e) && BatchOk(s.table, [e]);
    var s1 := Step(s, Poll([e])).value;
    SendShape(s.table, i, io);
    assert bytes[..|bytes|] == bytes;
    assert Step(s1, Handle(io, io)).Some?;
    es := [Poll([e]), Handle(io, io)];
    TwoSteps(s, Poll([e]), Handle(io, io));
  }

  lemma TwoSteps(s: State, e: Event, f: Event)
    requires Step(s, e).Some? && Step(Step(s, e).value, f).Some?
    ensures Exec(Step, s, [e, f]) == Step(Step(s, e).value, f)
  {
    assert [e, f][1..] == [f] && [f][1..] == [];
    assert Exec(Step, Step(s, e).value, [f]) == Step(Step(s, e).value, f);
  }

  // ----- Exactly which bytes can come back -----

  ghost predicate CanSend(s: State, c: nat, out: seq<byte>) {
    exists es :: Exec(Step, s, es).Some? && OutLog(Exec(Step, s, es).value, c) == out
  }

  /** The slot after the bytes of the first pending event have been received. */
  lemma ReceivedSlot(clients: nat, s: State, io: Io, io2: Io)
    requires StateInv(clients, s) && Step(s, Handle(io, io2)).Some? && io.received.Data?
    requires s.pending[0].inReady && s.pending[0].slot < clients
    ensures var s', e, bytes := Step(s, Handle(io, io2)).value, s.pending[0], io.received.bytes;
      && OutLog(s', e.conn) == OutLog(s, e.conn) && e.conn < s'.table.kernel.nextConn
      && (forall j: nat :: Has(s'.table, j, e.conn) ==> j == e.slot)
      && Has(s'.table, e.slot, e.conn) && s'.table.slots[e.slot].events == WantOut
      && s'.table.slots[e.slot].buf == bytes && s'.table.slots[e.slot].len == LenAfter(bytes, io)
      && (e.conn in s'.table.kernel.exhausted <==> !io.room)
  {
    var t, e := s.table, s.pending[0];
    assert ReportOk(t, e) && SlotOf(t, e.fd);
    assert Registered(t, e.slot);
    RecvShape(t, e.slot, io);
    var s' := Step(s, Handle(io, io2)).value;
    assert StateInv(clients, s') by { HandleKeeps(clients, s, io, io2); }
    OnlySlot(s'.table, e.slot, e.conn);
  }

  lemma OnlySlot(t: Table, i: nat, c: nat)
    requires Inv(t) && Has(t, i, c)
    ensures forall j: nat :: Has(t, j, c) ==> j == i
  {
    forall j: nat | Has(t, j, c) ensures j == i {
      if j != i {
        OwnConnection(t, i, j);
      }
    }
  }

  /** The other events of a batch are of other connections. */
  lemma OthersPending(s: State, io: Io, io2: Io)
    requires Step(s, Handle(io, io2)).Some? && BatchOk(s.table, s.pending) && ConnsInv(s.table.kernel)
    ensures forall k :: 0 <= k < |s.pending| - 1 ==> Step(s, Handle(io, io2)).value.pending[k].conn != s.pending[0].conn
  {
    assert ReportOk(s.table, s.pending[0]);
    forall k | 1 <= k < |s.pending| ensures s.pending[k].conn != s.pending[0].conn {
      assert ReportOk(s.table, s.pending[k]);
    }
  }

  lemma ReadyComesBack(clients: nat, s: State, i: nat, c: nat, bytes: seq<byte>)
    requires StateInv(clients, s) && Ready(s, i, c, bytes) && bytes != []
    ensures CanSend(s, c, OutLog(s, c) + bytes)
  {
    var es := Quieten(clients, s, i, c, bytes);
    var more := SendsBack(clients, Exec(Step, s, es).value, i, c, bytes);
    ExecAppend(Step, s, es, more);
    assert Exec(Step, s, es + more).Some?;
  }

  lemma MutedNeverSends(clients: nat, s: State, c: nat, out: seq<byte>)
    requires StateInv(clients, s) && Muted(s.table, c) && out != OutLog(s, c)
    ensures !CanSend(s, c, out)
  {
    forall es | Exec(Step, s, es).Some? ensures OutLog(Exec(Step, s, es).value, c) != out {
      MutedForGood(clients, s, es, c);
    }
  }

  /** Bytes just received can be sent back, by some run from there, exactly when the descriptor was
      added to the epoll set again and the terminator did not fall into `len`. */
  lemma EchoedExactlyWhen(clients: nat, perRound: nat, s: State, io: Io, io2: Io)
    requires ReachableReactor(clients, perRound, s) && Step(s, Handle(io, io2)).Some? && io.received.Data?
    requires s.pending[0].inReady && s.pending[0].slot < clients
    ensures var c, bytes := s.pending[0].conn, io.received.bytes;
      CanSend(Step(s, Handle(io, io2)).value, c, OutLog(s, c) + bytes)
      <==> io.room && !(|bytes| == 128 && io.lowByteFirst)
  {
    assert StateInv(clients, s) by { Invariant(clients, perRound, s); }
    var s', i, c, bytes := Step(s, Handle(io, io2)).value, s.pending[0].slot, s.pending[0].conn, io.received.bytes;
    assert StateInv(clients, s') by { HandleKeeps(clients, s, io, io2); }
    ReceivedSlot(clients, s, io, io2);
    if io.room && !(|bytes| == BUFLEN && io.lowByteFirst) {
      OthersPending(s, io, io2);
      ReadyComesBack(clients, s', i, c, bytes);
    } else {
      assert Muted(s'.table, c);
      MutedNeverSends(clients, s', c, OutLog(s, c) + bytes);
    }
  }
}
