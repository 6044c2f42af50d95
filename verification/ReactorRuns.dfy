// All runs of the reactor's main loop over a table with any number of client slots.

module ReactorRuns {
  import opened Bytes
  import opened Machines
  import opened Arith
  import opened ReactorSteps

  /** `perRound` slots are looked at in one round of the timeout scan; the program has 100
      and a table of 1024 client slots. */
  datatype State = State(table: Table, pending: seq<Report>, checkpos: nat, rounds: nat, perRound: nat)

  datatype Event =
    | ScanRound(now: int)
    | Poll(batch: seq<Report>)
    | Handle(io: Io, io2: Io)

  const BLANK := Slot(0, WantNothing, NoCallback, 0, [], 0, 0)

  /** The listener has the last slot; its descriptor counts as connection 0. */
  function Initial(clients: nat, perRound: nat, lfd: int, now: int): State {
    State(Table(seq(clients, _ => BLANK) + [Slot(lfd, WantIn, AcceptConn, 1, [], 0, now)],
                Kernel(map[lfd := 0], map[lfd := Registration(clients, WantIn)], 1, 0, map[], map[], {}, {}, {})),
          [], 0, 0, perRound)
  }

  /** What epoll_wait may report: a registered descriptor, with its slot pointer and
      only readiness asked for. */
  ghost predicate ReportOk(t: Table, e: Report) {
    && e.fd in t.kernel.interest && t.kernel.interest[e.fd].slot == e.slot
    && e.fd in t.kernel.open && t.kernel.open[e.fd] == e.conn
    && (e.inReady ==> t.kernel.interest[e.fd].want == WantIn)
    && (e.outReady ==> t.kernel.interest[e.fd].want == WantOut)
  }

  ghost predicate BatchOk(t: Table, es: seq<Report>) {
    && (forall k :: 0 <= k < |es| ==> ReportOk(t, es[k]))
    && (forall k, m :: 0 <= k < m < |es| ==> es[k].fd != es[m].fd)
  }

  ghost function Step(s: State, e: Event): Option<State> {
    match e
    case ScanRound(now) =>
      if s.pending != [] || |s.table.slots| <= 1 || s.checkpos >= |s.table.slots| then None
      else
        var r := ScanSlots(s.table, s.checkpos, now, s.perRound);
        Some(s.(table := r.table, checkpos := r.checkpos, rounds := s.rounds + 1))
    case Poll(batch) =>
      if s.pending == [] && BatchOk(s.table, batch) then Some(s.(pending := batch)) else None
    case Handle(io, io2) =>
      if s.pending == [] || s.pending[0].slot >= |s.table.slots| || !IoPossible(s.table, io) || !IoPossible(s.table, io2)
      then None
      else Some(s.(table := Dispatch(s.table, s.pending[0], io, io2), pending := s.pending[1..]))
  }

  // ----- The invariant -----

  /** Interest and callback of a registered slot match. */
  predicate CallbackOk(t: Table, i: nat)
    requires i < |t.slots|
  {
    var ev := t.slots[i];
    if i == |t.slots| - 1 then ev.events == WantIn && ev.callback == AcceptConn
    else (ev.events == WantIn && ev.callback == RecvData) || (ev.events == WantOut && ev.callback == SendData)
  }

  /** The slot's descriptor is in the epoll set, unless there was no room to add it. */
  predicate InterestOk(t: Table, i: nat)
    requires i < |t.slots|
  {
    var ev := t.slots[i];
    && ev.fd in t.kernel.open
    && if t.kernel.open[ev.fd] in t.kernel.exhausted then ev.fd !in t.kernel.interest
       else ev.fd in t.kernel.interest && t.kernel.interest[ev.fd] == Registration(i, ev.events)
  }

  /** All bytes received are to be sent, or none where the terminator fell into `len`. */
  predicate LenOk(ev: Slot) {
    ev.events == WantOut ==> 0 < |ev.buf| <= BUFLEN && (ev.len == |ev.buf| || (ev.len == 0 && |ev.buf| == BUFLEN))
  }

  predicate Registered(t: Table, i: nat)
    requires i < |t.slots|
  {
    InterestOk(t, i) && CallbackOk(t, i) && LenOk(t.slots[i])
  }

  /** Received and not yet sent. */
  function Held(ev: Slot): seq<byte> { if ev.events == WantOut then ev.buf else [] }

  /** Up to now the connection has echoed what it received, unless some send was short. */
  predicate EchoOk(k: Kernel, c: nat, held: seq<byte>) {
    if c in k.truncated then |Log(k.outbox, c)| + |held| < |Log(k.inbox, c)|
    else Log(k.inbox, c) == Log(k.outbox, c) + held
  }

  /** A descriptor in the epoll set has a registered slot. */
  predicate SlotOf(t: Table, fd: int)
    requires fd in t.kernel.interest
  {
    var i := t.kernel.interest[fd].slot;
    i < |t.slots| && t.slots[i].status == 1 && t.slots[i].fd == fd
  }

  ghost predicate TableInv(t: Table) {
    && |t.slots| >= 1
    && (forall i: nat :: i < |t.slots| ==> t.slots[i].status == 0 || t.slots[i].status == 1)
    && (forall i: nat :: i < |t.slots| && t.slots[i].status == 1 ==> Registered(t, i))
    && (forall i: nat, j: nat :: i < j < |t.slots| && t.slots[i].status == t.slots[j].status == 1 ==>
          t.slots[i].fd != t.slots[j].fd)
    && (forall fd :: fd in t.kernel.interest ==> SlotOf(t, fd))
    && t.slots[|t.slots| - 1].status == 1
    && t.kernel.addFailures == 0
  }

  ghost predicate ConnsInv(k: Kernel) {
    && (forall fd :: fd in k.open ==> k.open[fd] < k.nextConn)
    && (forall f, g :: f in k.open && g in k.open && k.open[f] == k.open[g] ==> f == g)
    && (forall c :: c in k.inbox || c in k.outbox || c in k.truncated || c in k.exhausted || c in k.unattached ==>
          c < k.nextConn)
  }

  ghost predicate EchoInv(t: Table) {
    && (forall i: nat :: i < |t.slots| - 1 && t.slots[i].status == 1 && t.slots[i].fd in t.kernel.open ==>
          EchoOk(t.kernel, t.kernel.open[t.slots[i].fd], Held(t.slots[i])))
    && (forall c: nat :: if c in t.kernel.truncated then |Log(t.kernel.outbox, c)| < |Log(t.kernel.inbox, c)|
                         else Log(t.kernel.outbox, c) <= Log(t.kernel.inbox, c))
  }

  /** Every other registered slot and its connection stay as they were. */
  ghost predicate OthersKept(t: Table, t': Table, i: nat) {
    && |t'.slots| == |t.slots|
    && forall j: nat :: j < |t.slots| && j != i && t.slots[j].status == 1 ==>
         && t'.slots[j] == t.slots[j]
         && var fd := t.slots[j].fd;
            && (fd in t.kernel.open ==> fd in t'.kernel.open && t'.kernel.open[fd] == t.kernel.open[fd])
            && (fd in t.kernel.interest ==> fd in t'.kernel.interest && t'.kernel.interest[fd] == t.kernel.interest[fd])
  }

  // ----- Every callback keeps the invariant -----

  /** Only descriptor `fd` and connection `c` are touched. */
  ghost predicate OnlyTouches(k: Kernel, k': Kernel, fd: int, c: nat) {
    && (forall g :: g != fd ==> (g in k'.open <==> g in k.open) && (g in k.open ==> k'.open[g] == k.open[g]))
    && (forall g :: g != fd ==> (g in k'.interest <==> g in k.interest) && (g in k.interest ==> k'.interest[g] == k.interest[g]))
    && (forall d: nat :: d != c ==> (d in k'.exhausted <==> d in k.exhausted))
    && k'.addFailures == k.addFailures
  }

  /** No registered slot but `i` has the descriptor `fd` or the connection `c`. */
  ghost predicate Apart(t: Table, i: nat, fd: int, c: nat) {
    forall j: nat :: j < |t.slots| && j != i && t.slots[j].status == 1 ==>
      t.slots[j].fd != fd && t.slots[j].fd in t.kernel.open && t.kernel.open[t.slots[j].fd] != c
  }

  /** Slot `i`, which has `fd` if it is registered, changes with `fd` and nothing else. */
  ghost predicate Changes(t: Table, t': Table, i: nat, fd: int, c: nat) {
    && i < |t.slots| - 1 && |t'.slots| == |t.slots| && t'.slots == t.slots[i := t'.slots[i]]
    && (t.slots[i].status == 1 ==> t.slots[i].fd == fd)
    && OnlyTouches(t.kernel, t'.kernel, fd, c) && Apart(t, i, fd, c)
    && if t'.slots[i].status == 1 then t'.slots[i].fd == fd && Registered(t', i)
       else t'.slots[i].status == 0 && fd !in t'.kernel.interest
  }

  lemma ChangesKeep(t: Table, t': Table, i: nat, fd: int, c: nat)
    requires TableInv(t) && Changes(t, t', i, fd, c)
    ensures TableInv(t') && OthersKept(t, t', i)
  {
    forall j: nat | j < |t.slots| && j != i && t.slots[j].status == 1 ensures Registered(t', j) {
      assert Registered(t, j);
    }
    forall g | g in t'.kernel.interest ensures SlotOf(t', g) {
      if g != fd {
        assert SlotOf(t, g);
      }
    }
  }

  lemma OthersApart(t: Table, i: nat)
    requires TableInv(t) && ConnsInv(t.kernel) && i < |t.slots| && t.slots[i].status == 1
    ensures Registered(t, i) && Apart(t, i, t.slots[i].fd, t.kernel.open[t.slots[i].fd])
  {
    assert Registered(t, i);
    forall j: nat | j < |t.slots| && j != i && t.slots[j].status == 1 ensures Registered(t, j) {}
  }

  /** The epoll set and the exhausted connections after `fd`, connection `c`, is added or not. */
  predicate AddedTo(k: Kernel, k': Kernel, fd: int, c: nat, r: Registration, room: bool) {
    && k'.interest == (if room then k.interest[fd := r] else k.interest - {fd})
    && k'.exhausted == (if room then k.exhausted else k.exhausted + {c})
  }

  /** Slot `i` goes on with the same connection, now waiting for `want`. */
  lemma RearmKeeps(t: Table, t': Table, i: nat, want: Want, room: bool)
    requires TableInv(t) && ConnsInv(t.kernel) && i < |t.slots| - 1 && t.slots[i].status == 1
    requires t.slots[i].fd in t.kernel.open && t.slots[i].fd in t.kernel.interest
    requires |t'.slots| == |t.slots| && t'.slots[i].status == 1 && t'.slots[i].fd == t.slots[i].fd
    requires t'.slots == t.slots[i := t'.slots[i]] && t'.slots[i].events == want && CallbackOk(t', i) && LenOk(t'.slots[i])
    requires t'.kernel.open == t.kernel.open && t'.kernel.addFailures == t.kernel.addFailures
    requires AddedTo(t.kernel, t'.kernel, t.slots[i].fd, t.kernel.open[t.slots[i].fd], Registration(i, want), room)
    ensures TableInv(t') && OthersKept(t, t', i)
  {
    var fd := t.slots[i].fd;
    var c := t.kernel.open[fd];
    OthersApart(t, i);
    assert OnlyTouches(t.kernel, t'.kernel, fd, c);
    ChangesKeep(t, t', i, fd, c);
  }

  /** Slot `i` lets its connection go. */
  lemma CloseKeeps(t: Table, t': Table, i: nat)
    requires TableInv(t) && ConnsInv(t.kernel) && i < |t.slots| - 1 && t.slots[i].status == 1
    requires t'.slots == t.slots[i := t.slots[i].(status := 0)]
    requires t'.kernel == Close(t.kernel, t.slots[i].fd)
    ensures TableInv(t') && OthersKept(t, t', i)
  {
    OthersApart(t, i);
    var fd := t.slots[i].fd;
    assert OnlyTouches(t.kernel, t'.kernel, fd, t.kernel.open[fd]);
    ChangesKeep(t, t', i, fd, t.kernel.open[fd]);
  }

  lemma NewConnectionApart(t: Table, i: nat, fd: int)
    requires TableInv(t) && ConnsInv(t.kernel) && fd !in t.kernel.open
    ensures Apart(t, i, fd, t.kernel.nextConn)
  {
    forall j: nat | j < |t.slots| && t.slots[j].status == 1 ensures Registered(t, j) {}
  }

  /** Free slot `i` takes a new connection. */
  lemma AttachKeeps(t: Table, t': Table, i: nat, fd: int, room: bool)
    requires TableInv(t) && ConnsInv(t.kernel) && i < |t.slots| - 1 && t.slots[i].status == 0 && fd !in t.kernel.open
    requires |t'.slots| == |t.slots| && t'.slots == t.slots[i := t'.slots[i]] && t'.slots[i].fd == fd
    requires t'.slots[i].status == 1 && t'.slots[i].events == WantIn && t'.slots[i].callback == RecvData
    requires t'.kernel.open == t.kernel.open[fd := t.kernel.nextConn] && fd !in t.kernel.interest
    requires AddedTo(t.kernel, t'.kernel, fd, t.kernel.nextConn, Registration(i, WantIn), room)
    requires t'.kernel.addFailures == t.kernel.addFailures
    ensures TableInv(t') && OthersKept(t, t', |t.slots|)
  {
    var c := t.kernel.nextConn;
    NewConnectionApart(t, i, fd);
    assert c !in t.kernel.exhausted;
    assert OnlyTouches(t.kernel, t'.kernel, fd, c);
    ChangesKeep(t, t', i, fd, c);
  }

  lemma RegisteredAreOpen(t: Table)
    requires TableInv(t)
    ensures forall fd :: fd in t.kernel.interest ==> fd in t.kernel.open
  {
    forall fd | fd in t.kernel.interest ensures fd in t.kernel.open {
      assert SlotOf(t, fd);
      assert Registered(t, t.kernel.interest[fd].slot);
    }
  }

  /** Only connection `c` has moved bytes. */
  ghost predicate OtherLogsKept(k: Kernel, k': Kernel, c: nat) {
    forall d: nat :: d != c ==> Log(k'.inbox, d) == Log(k.inbox, d) && Log(k'.outbox, d) == Log(k.outbox, d)
  }

  ghost predicate Inv(t: Table) { TableInv(t) && ConnsInv(t.kernel) && EchoInv(t) }

  function Leaked(t: Table, fd: int): Table {
    t.(kernel := t.kernel.(open := t.kernel.open[fd := t.kernel.nextConn], nextConn := t.kernel.nextConn + 1,
                           unattached := t.kernel.unattached + {t.kernel.nextConn}))
  }

  /** A new connection that finds no slot stays open, but touches nothing else. */
  lemma LeakTable(t: Table, fd: int)
    requires TableInv(t) && ConnsInv(t.kernel) && fd !in t.kernel.open
    ensures TableInv(Leaked(t, fd)) && OthersKept(t, Leaked(t, fd), |t.slots|)
  {
    forall j: nat | j < |t.slots| && t.slots[j].status == 1 ensures Registered(Leaked(t, fd), j) {
      assert Registered(t, j);
    }
    forall g | g in t.kernel.interest ensures SlotOf(Leaked(t, fd), g) {
      assert SlotOf(t, g);
    }
  }

  lemma LeakKeeps(t: Table, fd: int)
    requires Inv(t) && fd !in t.kernel.open
    ensures Inv(Leaked(t, fd)) && OthersKept(t, Leaked(t, fd), |t.slots|)
  {
    LeakTable(t, fd);
    assert forall j: nat :: j < |t.slots| && t.slots[j].status == 1 ==> Registered(t, j);
  }

  lemma AttachedEcho(t: Table, t': Table, i: nat, fd: int)
    requires Inv(t) && TableInv(t') && i < |t.slots| - 1 && t.slots[i].status == 0 && fd !in t.kernel.open
    requires |t'.slots| == |t.slots| && t'.slots == t.slots[i := t'.slots[i]] && t'.slots[i].fd == fd
    requires t'.slots[i].events == WantIn
    requires t'.kernel == t.kernel.(open := t.kernel.open[fd := t.kernel.nextConn], nextConn := t.kernel.nextConn + 1,
                                    interest := t'.kernel.interest, exhausted := t'.kernel.exhausted)
    requires t'.kernel.exhausted <= t.kernel.exhausted + {t.kernel.nextConn}
    ensures EchoInv(t') && ConnsInv(t'.kernel)
  {
    var c := t.kernel.nextConn;
    assert Log(t.kernel.inbox, c) == Log(t.kernel.outbox, c) == [];
    assert EchoOk(t'.kernel, c, []);
    forall j: nat | j < |t.slots| - 1 && t'.slots[j].status == 1 && t'.slots[j].fd in t'.kernel.open
      ensures EchoOk(t'.kernel, t'.kernel.open[t'.slots[j].fd], Held(t'.slots[j]))
    {
      if j != i {
        assert Registered(t, j);
      }
    }
  }

  lemma AcceptShape(t: Table, io: Io)
    requires |t.slots| > 0 && io.accepted.Accepted? && io.accepted.nonblocking && FirstFree(t.slots, 0) < |t.slots| - 1
    requires io.accepted.fd !in t.kernel.interest
    ensures var i, t', fd := FirstFree(t.slots, 0), Accept(t, io), io.accepted.fd;
      && t'.slots == t.slots[i := Slot(fd, WantIn, RecvData, 1, t.slots[i].buf, t.slots[i].len, io.now)]
      && t'.kernel == t.kernel.(open := t.kernel.open[fd := t.kernel.nextConn], nextConn := t.kernel.nextConn + 1,
                                interest := t'.kernel.interest, exhausted := t'.kernel.exhausted)
      && AddedTo(t.kernel, t'.kernel, fd, t.kernel.nextConn, Registration(i, WantIn), io.room)
  {
    assert t.kernel.interest - {io.accepted.fd} == t.kernel.interest;
  }

  lemma AcceptedKeeps(t: Table, io: Io)
    requires Inv(t) && IoPossible(t, io)
    requires io.accepted.Accepted? && io.accepted.nonblocking && FirstFree(t.slots, 0) < |t.slots| - 1
    ensures Inv(Accept(t, io)) && OthersKept(t, Accept(t, io), |t.slots|)
    ensures Accept(t, io).kernel.inbox == t.kernel.inbox && Accept(t, io).kernel.outbox == t.kernel.outbox
  {
    var fd := io.accepted.fd;
    var i := FirstFree(t.slots, 0);
    RegisteredAreOpen(t);
    AcceptShape(t, io);
    AttachKeeps(t, Accept(t, io), i, fd, io.room);
    AttachedEcho(t, Accept(t, io), i, fd);
  }

  predicate Attaches(t: Table, io: Io)
    requires |t.slots| > 0
  {
    io.accepted.Accepted? && io.accepted.nonblocking && FirstFree(t.slots, 0) < |t.slots| - 1
  }

  lemma LeakShape(t: Table, io: Io)
    requires |t.slots| > 0 && !Attaches(t, io)
    ensures Accept(t, io) == if io.accepted.Accepted? then Leaked(t, io.accepted.fd) else t
  {}

  lemma AcceptKeeps(t: Table, io: Io)
    requires Inv(t) && IoPossible(t, io)
    ensures Inv(Accept(t, io)) && OthersKept(t, Accept(t, io), |t.slots|)
    ensures Accept(t, io).kernel.inbox == t.kernel.inbox && Accept(t, io).kernel.outbox == t.kernel.outbox
  {
    if Attaches(t, io) {
      AcceptedKeeps(t, io);
    } else {
      LeakShape(t, io);
      if io.accepted.Accepted? {
        LeakKeeps(t, io.accepted.fd);
      }
    }
  }

  /** What recvdata and senddata leave behind, slot and kernel. */
  lemma RecvShape(t: Table, i: nat, io: Io)
    requires i < |t.slots| && t.slots[i].status == 1 && io.received.Data?
    requires t.slots[i].fd in t.kernel.open && t.slots[i].fd in t.kernel.interest
    ensures var ev, bytes := t.slots[i], io.received.bytes;
      var t' := Recv(t, i, ev.fd, io);
      && t'.slots == t.slots[i := Slot(ev.fd, WantOut, SendData, 1, bytes, LenAfter(bytes, io), io.now)]
      && t'.kernel == Received(t.kernel, ev.fd, bytes).(interest := t'.kernel.interest, exhausted := t'.kernel.exhausted)
      && AddedTo(t.kernel, t'.kernel, ev.fd, t.kernel.open[ev.fd], Registration(i, WantOut), io.room)
  {
    var fd := t.slots[i].fd;
    assert (t.kernel.interest - {fd})[fd := Registration(i, WantOut)] == t.kernel.interest[fd := Registration(i, WantOut)];
  }

  lemma SendShape(t: Table, i: nat, io: Io)
    requires i < |t.slots| && t.slots[i].status == 1 && SendCount(t.slots[i], io) > 0
    requires t.slots[i].fd in t.kernel.open && t.slots[i].fd in t.kernel.interest
    ensures var ev, n := t.slots[i], SendCount(t.slots[i], io);
      var t' := Send(t, i, ev.fd, io);
      && t'.slots == t.slots[i := Slot(ev.fd, WantIn, RecvData, 1, ev.buf, ev.len, io.now)]
      && t'.kernel == Sent(t.kernel, ev.fd, ev.buf[..n], n == |ev.buf|).(
                        interest := t'.kernel.interest, exhausted := t'.kernel.exhausted)
      && AddedTo(t.kernel, t'.kernel, ev.fd, t.kernel.open[ev.fd], Registration(i, WantIn), io.room)
  {
    var fd := t.slots[i].fd;
    assert (t.kernel.interest - {fd})[fd := Registration(i, WantIn)] == t.kernel.interest[fd := Registration(i, WantIn)];
  }

  lemma CloseShape(t: Table, i: nat, io: Io)
    requires i < |t.slots| && t.slots[i].status == 1
    ensures var t' := Table(t.slots[i := t.slots[i].(status := 0)], Close(t.kernel, t.slots[i].fd));
      && (!io.received.Data? ==> Recv(t, i, t.slots[i].fd, io) == t')
      && (SendCount(t.slots[i], io) <= 0 ==> Send(t, i, t.slots[i].fd, io) == t')
  {}

  /** What one callback of slot `i` keeps. */
  ghost predicate KeepsBut(t: Table, t': Table, i: nat) {
    && Inv(t') && OthersKept(t, t', i)
    && i < |t.slots| && t.slots[i].fd in t.kernel.open
    && OtherLogsKept(t.kernel, t'.kernel, t.kernel.open[t.slots[i].fd])
  }

  lemma ReceivedKeeps(t: Table, i: nat, io: Io)
    requires Inv(t) && IoPossible(t, io) && i < |t.slots| - 1 && t.slots[i].status == 1 && io.received.Data?
    requires t.slots[i].callback == RecvData && t.slots[i].fd in t.kernel.interest
    ensures KeepsBut(t, Recv(t, i, t.slots[i].fd, io), i)
  {
    var t' := Recv(t, i, t.slots[i].fd, io);
    assert Registered(t, i);
    RecvShape(t, i, io);
    RearmKeeps(t, t', i, WantOut, io.room);
    ReceivedEcho(t, t', i, io.received.bytes);
  }

  lemma SentKeeps(t: Table, i: nat, io: Io)
    requires Inv(t) && i < |t.slots| - 1 && t.slots[i].status == 1 && SendCount(t.slots[i], io) > 0
    requires t.slots[i].callback == SendData && t.slots[i].fd in t.kernel.interest
    ensures KeepsBut(t, Send(t, i, t.slots[i].fd, io), i)
  {
    var t' := Send(t, i, t.slots[i].fd, io);
    assert InterestOk(t, i) && CallbackOk(t, i) by { assert Registered(t, i); }
    SendShape(t, i, io);
    RearmKeeps(t, t', i, WantIn, io.room);
    SentEcho(t, t', i, SendCount(t.slots[i], io));
  }

  lemma ClosedKeeps(t: Table, i: nat)
    requires Inv(t) && i < |t.slots| - 1 && t.slots[i].status == 1
    ensures KeepsBut(t, Table(t.slots[i := t.slots[i].(status := 0)], Close(t.kernel, t.slots[i].fd)), i)
  {
    var t' := Table(t.slots[i := t.slots[i].(status := 0)], Close(t.kernel, t.slots[i].fd));
    assert Registered(t, i);
    CloseKeeps(t, t', i);
    ClosedEcho(t, t', i);
  }

  lemma RecvKeeps(t: Table, i: nat, io: Io)
    requires Inv(t) && IoPossible(t, io) && i < |t.slots| - 1
    requires t.slots[i].status == 1 && t.slots[i].callback == RecvData && t.slots[i].fd in t.kernel.interest
    ensures KeepsBut(t, Recv(t, i, t.slots[i].fd, io), i)
  {
    if io.received.Data? {
      ReceivedKeeps(t, i, io);
    } else {
      CloseShape(t, i, io);
      ClosedKeeps(t, i);
    }
  }

  lemma SendKeeps(t: Table, i: nat, io: Io)
    requires Inv(t) && i < |t.slots| - 1
    requires t.slots[i].status == 1 && t.slots[i].callback == SendData && t.slots[i].fd in t.kernel.interest
    ensures KeepsBut(t, Send(t, i, t.slots[i].fd, io), i)
  {
    if SendCount(t.slots[i], io) > 0 {
      SentKeeps(t, i, io);
    } else {
      CloseShape(t, i, io);
      ClosedKeeps(t, i);
    }
  }

  /** Only slot `i` has the connection of slot `i`. */
  lemma OwnConnection(t: Table, i: nat, j: nat)
    requires TableInv(t) && ConnsInv(t.kernel) && i < |t.slots| && j < |t.slots| && i != j
    requires t.slots[i].status == 1 && t.slots[j].status == 1
    ensures Registered(t, i) && Registered(t, j)
    ensures t.kernel.open[t.slots[i].fd] != t.kernel.open[t.slots[j].fd]
  {
    assert Registered(t, i) && Registered(t, j);
  }

  lemma ReceivedEcho(t: Table, t': Table, i: nat, bytes: seq<byte>)
    requires Inv(t) && TableInv(t') && i < |t.slots| - 1 && t.slots[i].status == 1 && t.slots[i].events == WantIn
    requires |t'.slots| == |t.slots| && t'.slots == t.slots[i := t'.slots[i]] && t'.slots[i].fd == t.slots[i].fd
    requires t'.slots[i].events == WantOut && t'.slots[i].buf == bytes
    requires t'.kernel == Received(t.kernel, t.slots[i].fd, bytes).(interest := t'.kernel.interest, exhausted := t'.kernel.exhausted)
    requires |bytes| > 0 && forall c :: c in t'.kernel.exhausted ==> c < t.kernel.nextConn
    ensures EchoInv(t') && ConnsInv(t'.kernel)
  {
    assert Registered(t, i);
    var c := t.kernel.open[t.slots[i].fd];
    assert EchoOk(t.kernel, c, Held(t.slots[i]));
    assert EchoOk(t'.kernel, c, bytes);
    forall j: nat | j < |t.slots| - 1 && t'.slots[j].status == 1 && t'.slots[j].fd in t'.kernel.open
      ensures EchoOk(t'.kernel, t'.kernel.open[t'.slots[j].fd], Held(t'.slots[j]))
    {
      if j != i {
        OwnConnection(t, i, j);
      }
    }
  }

  lemma SentEcho(t: Table, t': Table, i: nat, n: nat)
    requires Inv(t) && TableInv(t') && i < |t.slots| - 1 && t.slots[i].status == 1 && t.slots[i].events == WantOut
    requires |t'.slots| == |t.slots| && t'.slots == t.slots[i := t'.slots[i]]
    requires t'.slots[i].fd == t.slots[i].fd && t'.slots[i].events == WantIn
    requires 0 < n <= |t.slots[i].buf|
    requires t'.kernel ==
      Sent(t.kernel, t.slots[i].fd, t.slots[i].buf[..n], n == |t.slots[i].buf|).(
        interest := t'.kernel.interest, exhausted := t'.kernel.exhausted)
    requires forall c :: c in t'.kernel.exhausted ==> c < t.kernel.nextConn
    ensures EchoInv(t') && ConnsInv(t'.kernel)
  {
    assert Registered(t, i);
    var c := t.kernel.open[t.slots[i].fd];
    assert EchoOk(t.kernel, c, t.slots[i].buf);
    if n == |t.slots[i].buf| {
      assert t.slots[i].buf[..n] == t.slots[i].buf;
    }
    assert EchoOk(t'.kernel, c, []);
    forall j: nat | j < |t.slots| - 1 && t'.slots[j].status == 1 && t'.slots[j].fd in t'.kernel.open
      ensures EchoOk(t'.kernel, t'.kernel.open[t'.slots[j].fd], Held(t'.slots[j]))
    {
      if j != i {
        OwnConnection(t, i, j);
      }
    }
  }

  lemma ClosedEcho(t: Table, t': Table, i: nat)
    requires Inv(t) && TableInv(t') && i < |t.slots| - 1 && t.slots[i].status == 1
    requires t'.slots == t.slots[i := t.slots[i].(status := 0)]
    requires t'.kernel == Close(t.kernel, t.slots[i].fd)
    ensures EchoInv(t') && ConnsInv(t'.kernel)
  {}

  lemma ScanSlotKeeps(t: Table, i: nat, now: int)
    requires Inv(t) && i < |t.slots| - 1
    ensures Inv(ScanSlot(t, i, now)) && OthersKept(t, ScanSlot(t, i, now), i)
  {
    if t.slots[i].status == 1 && now - t.slots[i].lastActive >= IDLE_LIMIT {
      assert ScanSlot(t, i, now).kernel == Close(t.kernel, t.slots[i].fd);
      ClosedKeeps(t, i);
    }
  }

  lemma {:induction false} ScanKeeps(t: Table, checkpos: nat, now: int, visits: nat)
    requires Inv(t) && |t.slots| > 1 && checkpos < |t.slots|
    ensures Inv(ScanSlots(t, checkpos, now, visits).table)
    decreases visits
  {
    if visits > 0 {
      var i := Wrapped(checkpos, |t.slots| - 1);
      ScanSlotKeeps(t, i, now);
      ScanKeeps(ScanSlot(t, i, now), i + 1, now, visits - 1);
    }
  }

  lemma DispatchKeeps(t: Table, e: Report, io: Io, io2: Io)
    requires Inv(t) && ReportOk(t, e) && IoPossible(t, io)
    ensures e.slot < |t.slots|
    ensures var t' := Dispatch(t, e, io, io2); Inv(t') && OthersKept(t, t', e.slot)
    ensures OtherLogsKept(t.kernel, Dispatch(t, e, io, io2).kernel, e.conn)
  {
    var i := e.slot;
    assert Registered(t, i);
    if i == |t.slots| - 1 {
      AcceptKeeps(t, io);
    } else if e.inReady {
      RecvKeeps(t, i, io);
    } else if e.outReady {
      SendKeeps(t, i, io2);
    }
  }

  lemma PendingKept(t: Table, t': Table, es: seq<Report>)
    requires TableInv(t) && es != [] && BatchOk(t, es) && OthersKept(t, t', es[0].slot) && TableInv(t')
    ensures BatchOk(t', es[1..])
  {
    forall k | 1 <= k < |es| ensures ReportOk(t', es[k]) {
      assert ReportOk(t, es[k]) && ReportOk(t, es[0]);
      assert es[0].fd != es[k].fd;
      assert Registered(t, es[k].slot) && Registered(t, es[0].slot);
    }
  }

  // ----- What holds of every run -----

  /** The number of the slot that the scan's visits have brought the cursor to. */
  function Cursor(visits: nat, clients: nat): (c: nat)
    ensures clients >= 1 ==> c <= clients
  {
    if visits == 0 then 0 else Wrapped(Cursor(visits - 1, clients), clients) + 1
  }

  ghost predicate StateInv(clients: nat, s: State) {
    && |s.table.slots| == clients + 1
    && Inv(s.table)
    && BatchOk(s.table, s.pending)
    && s.checkpos == Cursor(s.perRound * s.rounds, clients)
  }

  lemma {:induction false} ScanCursor(t: Table, checkpos: nat, now: int, visits: nat, before: nat, clients: nat)
    requires |t.slots| == clients + 1 && clients >= 1 && checkpos == Cursor(before, clients)
    ensures ScanSlots(t, checkpos, now, visits).checkpos == Cursor(before + visits, clients)
    decreases visits
  {
    if visits > 0 {
      var i := Wrapped(checkpos, clients);
      ScanCursor(ScanSlot(t, i, now), i + 1, now, visits - 1, before + 1, clients);
    }
  }

  lemma ScanRoundCursor(clients: nat, t: Table, checkpos: nat, now: int, perRound: nat, rounds: nat)
    requires |t.slots| == clients + 1 && clients >= 1 && checkpos == Cursor(perRound * rounds, clients)
    ensures ScanSlots(t, checkpos, now, perRound).checkpos == Cursor(perRound * (rounds + 1), clients)
  {
    ScanCursor(t, checkpos, now, perRound, perRound * rounds, clients);
    MulSucc(perRound, rounds);
  }

  lemma ScanRoundKeeps(clients: nat, s: State, now: int)
    requires StateInv(clients, s) && Step(s, ScanRound(now)).Some?
    ensures StateInv(clients, Step(s, ScanRound(now)).value)
  {
    ScanRoundCursor(clients, s.table, s.checkpos, now, s.perRound, s.rounds);
    ScanKeeps(s.table, s.checkpos, now, s.perRound);
  }

  lemma HandleKeeps(clients: nat, s: State, io: Io, io2: Io)
    requires StateInv(clients, s) && Step(s, Handle(io, io2)).Some?
    ensures StateInv(clients, Step(s, Handle(io, io2)).value)
    ensures OtherLogsKept(s.table.kernel, Step(s, Handle(io, io2)).value.table.kernel, s.pending[0].conn)
  {
    var t' := Dispatch(s.table, s.pending[0], io, io2);
    DispatchKeeps(s.table, s.pending[0], io, io2);
    PendingKept(s.table, t', s.pending);
  }

  lemma StepKeeps(clients: nat, s: State, e: Event)
    requires StateInv(clients, s) && Step(s, e).Some?
    ensures StateInv(clients, Step(s, e).value) && Step(s, e).value.perRound == s.perRound
  {
    match e
    case ScanRound(now) => ScanRoundKeeps(clients, s, now);
    case Poll(batch) =>
    case Handle(io, io2) => HandleKeeps(clients, s, io, io2);
  }

  lemma InitialKeeps(clients: nat, perRound: nat, lfd: int, now: int)
    ensures StateInv(clients, Initial(clients, perRound, lfd, now))
  {
    var t := Initial(clients, perRound, lfd, now).table;
    assert t.slots[clients] == Slot(lfd, WantIn, AcceptConn, 1, [], 0, now);
    assert Registered(t, clients);
  }

  ghost predicate ReachableReactor(clients: nat, perRound: nat, s: State) {
    exists lfd, now :: Reachable(Step, Initial(clients, perRound, lfd, now), s)
  }

  lemma Invariant(clients: nat, perRound: nat, s: State)
    requires ReachableReactor(clients, perRound, s)
    ensures StateInv(clients, s) && s.perRound == perRound
  {
    var lfd, now :| Reachable(Step, Initial(clients, perRound, lfd, now), s);
    var inv := (s: State) => StateInv(clients, s) && s.perRound == perRound;
    assert Inductive(Step, inv) by {
      forall s, e | inv(s) && Step(s, e).Some? ensures inv(Step(s, e).value) {
        StepKeeps(clients, s, e);
      }
    }
    InitialKeeps(clients, perRound, lfd, now);
    Invariance(Step, inv, Initial(clients, perRound, lfd, now), s);
  }

  /** Through a whole batch, an event not yet processed still refers to the connection it
      was reported for, and its slot still waits for what was reported, although earlier
      events of the batch may have closed slots and accept may have reused them. */
  lemma PendingEventsStayValid(clients: nat, perRound: nat, s: State, k: nat)
    requires ReachableReactor(clients, perRound, s) && k < |s.pending|
    ensures var e := s.pending[k];
      && e.slot < |s.table.slots| && s.table.slots[e.slot].status == 1 && s.table.slots[e.slot].fd == e.fd
      && e.fd in s.table.kernel.open && s.table.kernel.open[e.fd] == e.conn
      && (e.inReady ==> s.table.slots[e.slot].events == WantIn)
      && (e.outReady ==> s.table.slots[e.slot].events == WantOut)
  {
    Invariant(clients, perRound, s);
    assert Registered(s.table, s.pending[k].slot);
  }

  /** Handling an event moves bytes only on the connection it was reported for. */
  lemma EventsActOnTheirConnection(clients: nat, perRound: nat, s: State, io: Io, io2: Io, c: nat)
    requires ReachableReactor(clients, perRound, s) && Step(s, Handle(io, io2)).Some?
    requires c != s.pending[0].conn
    ensures var k, k' := s.table.kernel, Step(s, Handle(io, io2)).value.table.kernel;
      Log(k'.inbox, c) == Log(k.inbox, c) && Log(k'.outbox, c) == Log(k.outbox, c)
  {
    Invariant(clients, perRound, s);
    HandleKeeps(clients, s, io, io2);
  }

  /** Registered slots hold distinct open descriptors, callback and interest match, the epoll set
      has exactly the registered slots, less those it had no room for, and no call that adds to it
      ever failed for its descriptor. */
  lemma RegisteredSlots(clients: nat, perRound: nat, s: State, i: nat, j: nat)
    requires ReachableReactor(clients, perRound, s) && i < j < |s.table.slots|
    requires s.table.slots[i].status == 1 && s.table.slots[j].status == 1
    ensures s.table.slots[i].fd != s.table.slots[j].fd
    ensures Registered(s.table, i) && Registered(s.table, j)
    ensures forall fd :: fd in s.table.kernel.interest ==>
      s.table.kernel.interest[fd].slot < |s.table.slots| && s.table.slots[s.table.kernel.interest[fd].slot].fd == fd
    ensures s.table.kernel.addFailures == 0
  {
    Invariant(clients, perRound, s);
    OwnConnection(s.table, i, j);
  }

  /** The reactor echoes: what a connection was sent is a prefix of what it sent, and all of
      it unless a send was short or bytes are still held for the next send. */
  lemma Echoes(clients: nat, perRound: nat, s: State, c: nat)
    requires ReachableReactor(clients, perRound, s)
    ensures var k := s.table.kernel;
      if c in k.truncated then |Log(k.outbox, c)| < |Log(k.inbox, c)| else Log(k.outbox, c) <= Log(k.inbox, c)
    ensures forall i: nat :: i < |s.table.slots| - 1 && s.table.slots[i].status == 1 && s.table.slots[i].events == WantIn ==>
      var k := s.table.kernel;
      s.table.slots[i].fd in k.open &&
      var d := k.open[s.table.slots[i].fd];
      (Log(k.outbox, d) == Log(k.inbox, d) <==> d !in k.truncated)
  {
    Invariant(clients, perRound, s);
    var k := s.table.kernel;
    forall i: nat | i < |s.table.slots| - 1 && s.table.slots[i].status == 1 && s.table.slots[i].events == WantIn
      ensures s.table.slots[i].fd in k.open &&
        var d := k.open[s.table.slots[i].fd];
        (Log(k.outbox, d) == Log(k.inbox, d) <==> d !in k.truncated)
    {
      assert Registered(s.table, i);
      assert EchoOk(k, k.open[s.table.slots[i].fd], []);
    }
  }
}
