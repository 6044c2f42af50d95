// The reactor as an object: the array of slots is updated in place, and every method is
// held to the function of ReactorSteps that the runs are built from.

module ReactorObject {
  import opened ReactorSteps

  class Reactor {
    const slots: array<Slot>
    var kernel: Kernel
    var checkpos: nat

    ghost predicate Valid()
      reads this
    {
      slots.Length > 1 && checkpos < slots.Length
    }

    ghost function View(): Table
      reads this, slots
    {
      Table(slots[..], kernel)
    }

    constructor (clients: nat, blank: Slot, kernel: Kernel)
      requires clients >= 1
      ensures Valid() && fresh(slots)
      ensures View() == Table(seq(clients + 1, _ => blank), kernel) && checkpos == 0
    {
      slots := new Slot[clients + 1](_ => blank);
      this.kernel := kernel;
      checkpos := 0;
    }

    method EventSet(i: nat, fd: int, cb: Callback, now: int)
      requires i < slots.Length
      modifies slots
      ensures View() == ReactorSteps.EventSet(old(View()), i, fd, cb, now)
    {
      slots[i] := slots[i].(fd := fd, callback := cb, events := WantNothing, status := 0, lastActive := now);
    }

    method EventAdd(i: nat, want: Want, room: bool)
      requires i < slots.Length
      modifies this`kernel, slots
      ensures View() == ReactorSteps.EventAdd(old(View()), i, want, room)
    {
      slots[i] := slots[i].(events := want);
      var r := Registration(i, want);
      if slots[i].status == 1 {
        kernel := CtlMod(kernel, slots[i].fd, r);
      } else {
        slots[i] := slots[i].(status := 1);
        kernel := CtlAdd(kernel, slots[i].fd, r, room);
      }
    }

    method EventDel(i: nat)
      requires i < slots.Length
      modifies this`kernel, slots
      ensures View() == ReactorSteps.EventDel(old(View()), i)
    {
      if slots[i].status != 1 {
        return;
      }
      slots[i] := slots[i].(status := 0);
      kernel := CtlDel(kernel, slots[i].fd);
    }

    /** The loop that looks for a free client slot. */
    method FindFree() returns (i: nat)
      requires slots.Length >= 1
      ensures i == FirstFree(slots[..], 0)
    {
      i := 0;
      while i < slots.Length - 1
        invariant i < slots.Length
        invariant FirstFree(slots[..], 0) == FirstFree(slots[..], i)
      {
        if slots[i].status == 0 {
          break;
        }
        i := i + 1;
      }
    }

    method Accept(io: Io)
      requires slots.Length >= 1
      modifies this`kernel, slots
      ensures View() == ReactorSteps.Accept(old(View()), io)
    {
      if io.accepted.AcceptFailed? {
        return;
      }
      var fd := io.accepted.fd;
      kernel := kernel.(open := kernel.open[fd := kernel.nextConn], nextConn := kernel.nextConn + 1);
      var i := FindFree();
      if i == slots.Length - 1 || !io.accepted.nonblocking {
        kernel := kernel.(unattached := kernel.unattached + {kernel.nextConn - 1});
        return;
      }
      EventSet(i, fd, RecvData, io.now);
      EventAdd(i, WantIn, io.room);
    }

    /** `buf[len] = 0`; the first byte behind a full buffer is the first one of `len`. */
    method Terminate(i: nat, lowByteFirst: bool)
      requires i < slots.Length
      modifies slots
      ensures slots[..] == old(slots[..])[i := old(slots[i]).(len :=
        if old(slots[i]).len == BUFLEN && lowByteFirst then 0 else old(slots[i]).len)]
    {
      if slots[i].len == BUFLEN && lowByteFirst {
        slots[i] := slots[i].(len := 0);
      }
    }

    method Recv(i: nat, fd: int, io: Io)
      requires i < slots.Length
      modifies this`kernel, slots
      ensures View() == ReactorSteps.Recv(old(View()), i, fd, io)
    {
      if io.received.Data? {
        slots[i] := slots[i].(buf := io.received.bytes);
        kernel := Received(kernel, fd, io.received.bytes);
        EventDel(i);
        slots[i] := slots[i].(len := |slots[i].buf|);
        Terminate(i, io.lowByteFirst);
        EventSet(i, fd, SendData, io.now);
        EventAdd(i, WantOut, io.room);
      } else {
        EventDel(i);
        kernel := Close(kernel, slots[i].fd);
      }
    }

    method Send(i: nat, fd: int, io: Io)
      requires i < slots.Length
      modifies this`kernel, slots
      ensures View() == ReactorSteps.Send(old(View()), i, fd, io)
    {
      var buf := slots[i].buf;
      var n := SendCount(slots[i], io);
      if n > 0 {
        kernel := Sent(kernel, fd, buf[..n], n == |buf|);
      }
      EventDel(i);
      if n > 0 {
        EventSet(i, fd, RecvData, io.now);
        EventAdd(i, WantIn, io.room);
      } else {
        kernel := Close(kernel, slots[i].fd);
      }
    }

    method Call(i: nat, io: Io)
      requires i < slots.Length
      modifies this`kernel, slots
      ensures View() == ReactorSteps.Call(old(View()), i, io)
    {
      match slots[i].callback
      case NoCallback =>
      case AcceptConn => Accept(io);
      case RecvData => Recv(i, slots[i].fd, io);
      case SendData => Send(i, slots[i].fd, io);
    }

    method Dispatch(e: Report, io: Io, io2: Io)
      requires e.slot < slots.Length
      modifies this`kernel, slots
      ensures View() == ReactorSteps.Dispatch(old(View()), e, io, io2)
    {
      if e.inReady && slots[e.slot].events == WantIn {
        Call(e.slot, io);
      }
      if e.outReady && slots[e.slot].events == WantOut {
        Call(e.slot, io2);
      }
    }

    /** One round of the timeout scan. */
    method ScanTimeouts(now: int, visits: nat)
      requires Valid()
      modifies this, slots
      ensures Valid()
      ensures Scan(View(), checkpos) == ScanSlots(old(View()), old(checkpos), now, visits)
    {
      var i := 0;
      while i < visits
        invariant i <= visits && Valid()
        invariant ScanSlots(View(), checkpos, now, visits - i) == ScanSlots(old(View()), old(checkpos), now, visits)
      {
        if checkpos == slots.Length - 1 {
          checkpos := 0;
        }
        ScanOne(checkpos, now);
        checkpos := checkpos + 1;
        i := i + 1;
      }
    }

    method ScanOne(i: nat, now: int)
      requires i < slots.Length
      modifies this`kernel, slots
      ensures View() == ScanSlot(old(View()), i, now)
    {
      if slots[i].status != 1 {
        return;
      }
      var duration := now - slots[i].lastActive;
      if duration >= IDLE_LIMIT {
        kernel := Close(kernel, slots[i].fd);
        EventDel(i);
      }
    }
  }
}
