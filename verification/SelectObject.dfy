// The select server as an object: its methods are the rounds of the main loop.

module SelectObject {
  import opened Machines
  import opened SelectServer

  /** `first` has been served before the pass. */
  function After(first: seq<int>, p: Pass): Pass { p.(served := first + p.served) }

  lemma ServeOne(first: seq<int>, t: Table, rset: set<int>, results: map<int, ReadResult>, nready: int, i: nat)
    requires i <= t.maxPos < |t.slots|
    ensures After(first, Serve(t, rset, results, nready, i)) ==
      var fd := t.slots[i];
      if fd == FREE || fd !in rset then After(first, Serve(t, rset, results, nready, i + 1))
      else match ResultOf(results, fd)
        case EndOfFile => Pass(Closed(t, fd), first + [fd], AfterClose)
        case ReadError => Pass(t, first + [fd], Exit)
        case Data =>
          if nready - 1 == 0 then Pass(t, first + [fd], CountedOut)
          else After(first + [fd], Serve(t, rset, results, nready - 1, i + 1))
  {
    var fd, rest := t.slots[i], Serve(t, rset, results, nready - 1, i + 1).served;
    assert first + ([fd] + rest) == first + [fd] + rest;
  }

  class Server {
    const slots: array<int>
    const lfd: int
    var maxPos: nat
    var allset: set<int>
    var maxfd: int
    var open: set<int>

    ghost predicate Valid()
      reads this
    {
      maxPos < slots.Length
    }

    ghost function View(): Table
      reads this, slots
    {
      Table(slots[..], maxPos, allset, maxfd, lfd, open)
    }

    /** Lines 99 to 107 of select_server.c. */
    constructor (size: nat, lfd: int, open: set<int>)
      requires size > 0
      ensures Valid() && fresh(slots) && View() == Initial(size, lfd, open)
    {
      slots := new int[size](_ => FREE);
      this.lfd, this.open := lfd, open;
      maxPos, allset, maxfd := 0, {lfd}, lfd;
    }

    /** The searches for a position, lines 140 to 149 and 179 to 186. */
    method Search(x: int, limit: nat) returns (i: nat)
      requires limit <= slots.Length
      ensures Find(slots[..], x, 0) < limit ==> i == Find(slots[..], x, 0)
      ensures Find(slots[..], x, 0) >= limit ==> i == limit
    {
      i := 0;
      while i < limit && slots[i] != x
        invariant i <= limit && Find(slots[..], x, 0) == Find(slots[..], x, i)
      {
        i := i + 1;
      }
    }

    /** Lines 128 to 158; false where the program exits for want of a position. */
    method Accept(fd: int) returns (ok: bool)
      requires Valid()
      modifies slots, this`maxPos, this`allset, this`maxfd, this`open
      ensures Valid()
      ensures ok == Accepted(old(View()), fd).Some?
      ensures View() == if ok then Accepted(old(View()), fd).value else old(View())
    {
      var i := Search(FREE, slots.Length);
      if i == slots.Length {
        return false;
      }
      slots[i] := fd;
      maxPos := if maxPos > i then maxPos else i;
      allset := allset + {fd};
      maxfd := if maxfd > fd then maxfd else fd;
      open := open + {fd};
      ok := true;
    }

    /** Lines 175 to 188. */
    method Close(fd: int)
      requires Valid()
      modifies slots, this`allset, this`open
      ensures Valid()
      ensures View() == Closed(old(View()), fd)
    {
      allset := allset - {fd};
      var i := Search(fd, maxPos + 1);
      if i <= maxPos {
        slots[i] := FREE;
      }
      open := open - {fd};
    }

    /** Lines 166 to 203. */
    method ServeReady(rset: set<int>, results: map<int, ReadResult>, n: int)
      returns (served: seq<int>, ending: Ending)
      requires Valid()
      modifies slots, this`allset, this`open
      ensures Valid()
      ensures Pass(View(), served, ending) == Serve(old(View()), rset, results, n, 0)
    {
      var i, nready := 0, n;
      served := [];
      ghost var t, all := View(), Serve(View(), rset, results, n, 0);
      while i <= maxPos
        invariant View() == t && maxPos < slots.Length
        invariant all == After(served, Serve(t, rset, results, nready, i))
      {
        var fd := slots[i];
        ServeOne(served, t, rset, results, nready, i);
        i := i + 1;
        if fd == FREE || fd !in rset {
          continue;
        }
        served := served + [fd];
        match ResultOf(results, fd)
        case EndOfFile =>
          Close(fd);
          return served, AfterClose;
        case ReadError =>
          return served, Exit;
        case Data =>
          nready := nready - 1;
          if nready == 0 {
            return served, CountedOut;
          }
      }
      ending := AllSeen;
    }

    /** One round of the main loop, lines 109 to 204. */
    method Turn(rset: set<int>, fd: int, results: map<int, ReadResult>)
      returns (served: seq<int>, ending: Ending)
      requires Valid()
      modifies slots, this`maxPos, this`allset, this`maxfd, this`open
      ensures Valid()
      ensures Pass(View(), served, ending) == Round(old(View()), rset, fd, results)
    {
      var nready := |rset|;
      if lfd in rset {
        var ok := Accept(fd);
        if !ok {
          return [], Exit;
        }
        nready := nready - 1;
        if nready == 0 {
          return [], CountedOut;
        }
      }
      served, ending := ServeReady(rset, results, nready);
    }
  }
}
