// The epoll reactor: the slot table `g_events`, the kernel state its system calls act
// on, and the callbacks, as functions.

module ReactorSteps {
  import opened Bytes

  datatype Want = WantNothing | WantIn | WantOut

  datatype Callback = NoCallback | AcceptConn | RecvData | SendData

  /** A slot of the table. `status` is 1 while the slot is registered; `buf` holds the bytes
      last received, and `len` says how many of them are to be sent. */
  datatype Slot =
    Slot(fd: int, events: Want, callback: Callback, status: int, buf: seq<byte>, len: nat, lastActive: int)

  datatype Registration = Registration(slot: nat, want: Want)

  /** What the kernel knows. Every descriptor that `accept` returns is a new connection.
      `inbox` and `outbox` hold all bytes received and sent on a connection, `truncated`
      the connections on which some send was short. `addFailures` counts the calls that add or
      modify a registration and fail for their descriptor; `exhausted` holds the connections
      whose descriptor was not added for want of memory or room, `unattached` those that accept
      returned but that got no slot. */
  datatype Kernel = Kernel(
    open: map<int, nat>, interest: map<int, Registration>, nextConn: nat, addFailures: nat,
    inbox: map<nat, seq<byte>>, outbox: map<nat, seq<byte>>, truncated: set<nat>, exhausted: set<nat>,
    unattached: set<nat>)

  datatype Table = Table(slots: seq<Slot>, kernel: Kernel)

  function Log(m: map<nat, seq<byte>>, c: nat): seq<byte> { if c in m then m[c] else [] }

  // ----- System calls -----

  function CtlAdd(k: Kernel, fd: int, r: Registration, room: bool): Kernel {
    if fd !in k.open || fd in k.interest then k.(addFailures := k.addFailures + 1)
    else if room then k.(interest := k.interest[fd := r])
    else k.(exhausted := k.exhausted + {k.open[fd]})
  }

  function CtlMod(k: Kernel, fd: int, r: Registration): Kernel {
    if fd in k.open && fd in k.interest then k.(interest := k.interest[fd := r])
    else k.(addFailures := k.addFailures + 1)
  }

  function CtlDel(k: Kernel, fd: int): Kernel {
    k.(interest := k.interest - {fd})
  }

  /** Closing a descriptor also takes it out of the epoll set. */
  function Close(k: Kernel, fd: int): Kernel {
    k.(open := k.open - {fd}, interest := k.interest - {fd})
  }

  // ----- The table -----

  function EventSet(t: Table, i: nat, fd: int, cb: Callback, now: int): Table
    requires i < |t.slots|
  {
    t.(slots := t.slots[i := t.slots[i].(fd := fd, callback := cb, events := WantNothing, status := 0, lastActive := now)])
  }

  function EventAdd(t: Table, i: nat, want: Want, room: bool): Table
    requires i < |t.slots|
  {
    var ev := t.slots[i];
    Table(t.slots[i := ev.(events := want, status := 1)],
          if ev.status == 1 then CtlMod(t.kernel, ev.fd, Registration(i, want))
          else CtlAdd(t.kernel, ev.fd, Registration(i, want), room))
  }

  function EventDel(t: Table, i: nat): Table
    requires i < |t.slots|
  {
    var ev := t.slots[i];
    if ev.status != 1 then t
    else Table(t.slots[i := ev.(status := 0)], CtlDel(t.kernel, ev.fd))
  }

  /** The first slot from `i` on with status 0; the listener's slot, the last one, ends the search. */
  function FirstFree(slots: seq<Slot>, i: nat): (r: nat)
    requires i < |slots|
    ensures i <= r < |slots|
    ensures r < |slots| - 1 ==> slots[r].status == 0
    ensures forall k :: i <= k < r ==> slots[k].status != 0
    decreases |slots| - i
  {
    if i == |slots| - 1 || slots[i].status == 0 then i else FirstFree(slots, i + 1)
  }

  // ----- Callbacks -----

  datatype AcceptResult = AcceptFailed | Accepted(fd: int, nonblocking: bool)

  /** Any error of recv is treated like any other. */
  datatype RecvResult = Data(bytes: seq<byte>) | Eof | RecvError

  /** What the system calls of one callback return, whichever callback it is; `room` says whether
      the kernel can add a descriptor to the epoll set. `lowByteFirst` is the byte order of an int. */
  datatype Io =
    Io(accepted: AcceptResult, received: RecvResult, sent: int, now: int, room: bool, lowByteFirst: bool)

  const BUFLEN := 128

  /** A descriptor returned by accept was not open; recv fills at most the whole buffer. */
  predicate IoPossible(t: Table, io: Io) {
    && (io.accepted.Accepted? ==> io.accepted.fd !in t.kernel.open)
    && (io.received.Data? ==> 0 < |io.received.bytes| <= BUFLEN)
  }

  /** `len` once the terminator is stored behind the bytes. Behind a full buffer lies the first byte
      of `len` itself: if this is the low one, 128 becomes 0, and otherwise the byte was 0 before. */
  function LenAfter(bytes: seq<byte>, io: Io): nat {
    if |bytes| == BUFLEN && io.lowByteFirst then 0 else |bytes|
  }

  /** What the slot gives to send. */
  function Text(ev: Slot): (text: seq<byte>)
    ensures text <= ev.buf
  {
    if ev.len <= |ev.buf| then ev.buf[..ev.len] else ev.buf
  }

  /** send takes at most what it is given. */
  function SendCount(ev: Slot, io: Io): (n: int)
    ensures n <= |ev.buf|
  {
    if io.sent > |Text(ev)| then |Text(ev)| else io.sent
  }

  function Accept(t: Table, io: Io): Table
    requires |t.slots| > 0
  {
    match io.accepted
    case AcceptFailed => t
    case Accepted(fd, nonblocking) =>
      var c := t.kernel.nextConn;
      var t := t.(kernel := t.kernel.(open := t.kernel.open[fd := c], nextConn := c + 1));
      var i := FirstFree(t.slots, 0);
      if i == |t.slots| - 1 || !nonblocking then t.(kernel := t.kernel.(unattached := t.kernel.unattached + {c}))
      else EventAdd(EventSet(t, i, fd, RecvData, io.now), i, WantIn, io.room)
  }

  function Received(k: Kernel, fd: int, bytes: seq<byte>): Kernel {
    if fd in k.open then k.(inbox := k.inbox[k.open[fd] := Log(k.inbox, k.open[fd]) + bytes]) else k
  }

  function Recv(t: Table, i: nat, fd: int, io: Io): Table
    requires i < |t.slots|
  {
    match io.received
    case Data(bytes) =>
      var ev := t.slots[i].(buf := bytes, len := LenAfter(bytes, io));
      var t := EventDel(Table(t.slots[i := ev], Received(t.kernel, fd, bytes)), i);
      EventAdd(EventSet(t, i, fd, SendData, io.now), i, WantOut, io.room)
    case _ =>
      var t := EventDel(t, i);
      t.(kernel := Close(t.kernel, t.slots[i].fd))
  }

  function Sent(k: Kernel, fd: int, bytes: seq<byte>, full: bool): Kernel {
    if fd in k.open then
      k.(outbox := k.outbox[k.open[fd] := Log(k.outbox, k.open[fd]) + bytes],
         truncated := if full then k.truncated else k.truncated + {k.open[fd]})
    else k
  }

  function Send(t: Table, i: nat, fd: int, io: Io): Table
    requires i < |t.slots|
  {
    var buf := t.slots[i].buf;
    var n := SendCount(t.slots[i], io);
    var t := EventDel(t.(kernel := if n > 0 then Sent(t.kernel, fd, buf[..n], n == |buf|) else t.kernel), i);
    if n > 0 then EventAdd(EventSet(t, i, fd, RecvData, io.now), i, WantIn, io.room)
    else t.(kernel := Close(t.kernel, t.slots[i].fd))
  }

  function Call(t: Table, i: nat, io: Io): (t': Table)
    requires i < |t.slots|
    ensures |t'.slots| == |t.slots|
  {
    match t.slots[i].callback
    case NoCallback => t
    case AcceptConn => Accept(t, io)
    case RecvData => Recv(t, i, t.slots[i].fd, io)
    case SendData => Send(t, i, t.slots[i].fd, io)
  }

  /** An event of a batch: its slot pointer and readiness bits, and, for the statements
      only, the descriptor and connection it was reported for. */
  datatype Report = Report(slot: nat, inReady: bool, outReady: bool, fd: int, conn: nat)

  /** The two tests of the dispatch loop, one after the other. */
  function Dispatch(t: Table, e: Report, io: Io, io2: Io): (t': Table)
    requires e.slot < |t.slots|
    ensures |t'.slots| == |t.slots|
  {
    var t1 := if e.inReady && t.slots[e.slot].events == WantIn then Call(t, e.slot, io) else t;
    if e.outReady && t1.slots[e.slot].events == WantOut then Call(t1, e.slot, io2) else t1
  }

  // ----- Timeouts -----

  const IDLE_LIMIT := 60

  function ScanSlot(t: Table, i: nat, now: int): (t': Table)
    requires i < |t.slots|
    ensures |t'.slots| == |t.slots|
  {
    if t.slots[i].status == 1 && now - t.slots[i].lastActive >= IDLE_LIMIT then
      EventDel(t.(kernel := Close(t.kernel, t.slots[i].fd)), i)
    else t
  }

  datatype Scan = Scan(table: Table, checkpos: nat)

  /** The slot the scan looks at when its cursor is `checkpos`. */
  function Wrapped(checkpos: nat, clients: nat): nat {
    if checkpos == clients then 0 else checkpos
  }

  function ScanSlots(t: Table, checkpos: nat, now: int, visits: nat): (r: Scan)
    requires |t.slots| > 1 && checkpos <= |t.slots| - 1
    ensures |r.table.slots| == |t.slots| && r.checkpos <= |t.slots| - 1
    decreases visits
  {
    if visits == 0 then Scan(t, checkpos)
    else
      var i := Wrapped(checkpos, |t.slots| - 1);
      ScanSlots(ScanSlot(t, i, now), i + 1, now, visits - 1)
  }
}
