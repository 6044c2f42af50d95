// The select server: four pieces of bookkeeping that must agree, over all runs.

module SelectServer {
  import opened Machines

  const FREE := -1

  /** `slots` is the array of client sockets, `maxPos` the highest position ever used, `allset`
      the set given to select and `maxfd` the highest descriptor put into it. `lfd` is the
      listening socket, `open` what the kernel has open. */
  datatype Table = Table(slots: seq<int>, maxPos: nat, allset: set<int>, maxfd: int, lfd: int, open: set<int>)

  function Max(a: int, b: int): int { if a > b then a else b }

  /** The first position from `i` on that holds `x`, or the number of slots. */
  function Find(slots: seq<int>, x: int, i: nat): (r: nat)
    requires i <= |slots|
    ensures i <= r <= |slots| && (r < |slots| ==> slots[r] == x)
    ensures forall k :: i <= k < r ==> slots[k] != x
    decreases |slots| - i
  {
    if i == |slots| || slots[i] == x then i else Find(slots, x, i + 1)
  }

  /** A new connection; None when every slot is taken and the program exits. */
  function Accepted(t: Table, fd: int): Option<Table> {
    var i := Find(t.slots, FREE, 0);
    if i == |t.slots| then None
    else Some(t.(slots := t.slots[i := fd], maxPos := if t.maxPos > i then t.maxPos else i,
                 allset := t.allset + {fd}, maxfd := Max(t.maxfd, fd), open := t.open + {fd}))
  }

  /** The peer of `fd` has closed. */
  function Closed(t: Table, fd: int): Table {
    var i := Find(t.slots, fd, 0);
    t.(allset := t.allset - {fd}, open := t.open - {fd},
       slots := if i < |t.slots| && i <= t.maxPos then t.slots[i := FREE] else t.slots)
  }

  datatype ReadResult = Data | EndOfFile | ReadError

  function ResultOf(results: map<int, ReadResult>, fd: int): ReadResult {
    if fd in results then results[fd] else Data
  }

  /** How a pass over the slots ends: at the last one, by the count of ready descriptors, after
      a close, or with the program. */
  datatype Ending = AllSeen | CountedOut | AfterClose | Exit

  datatype Pass = Pass(table: Table, served: seq<int>, ending: Ending)

  /** The loop over the slots from position `i` on; `served` lists the descriptors it reads. */
  function Serve(t: Table, rset: set<int>, results: map<int, ReadResult>, nready: int, i: nat): Pass
    decreases t.maxPos + 1 - i
  {
    if i > t.maxPos || i >= |t.slots| then Pass(t, [], AllSeen)
    else
      var fd := t.slots[i];
      if fd == FREE || fd !in rset then Serve(t, rset, results, nready, i + 1)
      else match ResultOf(results, fd)
        case EndOfFile => Pass(Closed(t, fd), [fd], AfterClose)
        case ReadError => Pass(t, [fd], Exit)
        case Data =>
          if nready - 1 == 0 then Pass(t, [fd], CountedOut)
          else
            var p := Serve(t, rset, results, nready - 1, i + 1);
            p.(served := [fd] + p.served)
  }

  /** One round of the main loop: `rset` is what select reports ready, `fd` what accept returns,
      if it is called. */
  function Round(t: Table, rset: set<int>, fd: int, results: map<int, ReadResult>): Pass {
    var nready := |rset|;
    if t.lfd in rset then
      match Accepted(t, fd)
      case None => Pass(t, [], Exit)
      case Some(t1) => if nready - 1 == 0 then Pass(t1, [], CountedOut) else Serve(t1, rset, results, nready - 1, 0)
    else Serve(t, rset, results, nready, 0)
  }

  datatype Event = Event(rset: set<int>, fd: int, results: map<int, ReadResult>)

  /** select reports some descriptors of its set, up to `maxfd`; accept returns a descriptor
      that was not open, and that an fd_set has room for. */
  predicate Possible(t: Table, e: Event) {
    && e.rset != {} && (forall f :: f in e.rset ==> f in t.allset && f <= t.maxfd)
    && (t.lfd in e.rset ==> e.fd !in t.open && 0 <= e.fd < |t.slots|)
  }

  /** A program that exits has no next state. */
  function Step(t: Table, e: Event): Option<Table> {
    if Possible(t, e) then
      var p := Round(t, e.rset, e.fd, e.results);
      if p.ending == Exit then None else Some(p.table)
    else None
  }

  function Initial(size: nat, lfd: int, open: set<int>): Table {
    Table(seq(size, _ => FREE), 0, {lfd}, lfd, lfd, open)
  }

  // ----- The invariant -----

  /** The descriptors in the slots. */
  function Clients(slots: seq<int>): set<int> {
    set i | 0 <= i < |slots| && slots[i] != FREE :: slots[i]
  }

  predicate Occupied(t: Table, i: nat) { i < |t.slots| && t.slots[i] != FREE }

  ghost predicate SlotsOk(t: Table) {
    && (forall i: nat :: Occupied(t, i) ==> i <= t.maxPos && t.slots[i] != t.lfd && 0 <= t.slots[i] < |t.slots|)
    && (forall i: nat, j: nat :: i < j && Occupied(t, i) && Occupied(t, j) ==> t.slots[i] != t.slots[j])
  }

  ghost predicate SetsOk(t: Table) {
    && t.allset == {t.lfd} + Clients(t.slots)
    && t.allset <= t.open
    && (forall f :: f in t.allset ==> f <= t.maxfd)
  }

  ghost predicate Inv(t: Table) {
    0 <= t.lfd < |t.slots| && t.maxPos < |t.slots| && SlotsOk(t) && SetsOk(t)
  }

  lemma ClientsAdd(slots: seq<int>, i: nat, fd: int)
    requires i < |slots| && slots[i] == FREE && fd != FREE
    ensures Clients(slots[i := fd]) == Clients(slots) + {fd}
  {
    forall f | f in Clients(slots) + {fd} ensures f in Clients(slots[i := fd]) {
      if f == fd {
        assert slots[i := fd][i] == fd;
      } else {
        var k :| 0 <= k < |slots| && slots[k] != FREE && slots[k] == f;
        assert slots[i := fd][k] == f;
      }
    }
  }

  lemma ClientsRemove(slots: seq<int>, i: nat)
    requires i < |slots| && slots[i] != FREE
    requires forall j :: 0 <= j < |slots| && j != i ==> slots[j] != slots[i]
    ensures Clients(slots[i := FREE]) == Clients(slots) - {slots[i]}
  {
    forall f | f in Clients(slots) - {slots[i]} ensures f in Clients(slots[i := FREE]) {
      var k :| 0 <= k < |slots| && slots[k] != FREE && slots[k] == f;
      assert slots[i := FREE][k] == f;
    }
  }

  lemma AcceptedKeeps(t: Table, fd: int)
    requires Inv(t) && fd !in t.open && 0 <= fd < |t.slots| && Accepted(t, fd).Some?
    ensures Inv(Accepted(t, fd).value)
  {
    var t', i := Accepted(t, fd).value, Find(t.slots, FREE, 0);
    ClientsAdd(t.slots, i, fd);
    assert SetsOk(t');
    forall k: nat | Occupied(t, k) ensures t.slots[k] != fd {
      assert t.slots[k] in Clients(t.slots);
    }
    assert forall k: nat :: Occupied(t', k) <==> Occupied(t, k) || k == i;
  }

  lemma ClosedKeeps(t: Table, i: nat)
    requires Inv(t) && Occupied(t, i)
    ensures Inv(Closed(t, t.slots[i]))
    ensures Closed(t, t.slots[i]).slots == t.slots[i := FREE]
  {
    var fd := t.slots[i];
    forall j: nat | j < |t.slots| && j != i ensures t.slots[j] != fd {
      assert t.slots[j] == fd ==> Occupied(t, j);
    }
    assert Find(t.slots, fd, 0) == i;
    var t' := Closed(t, fd);
    ClientsRemove(t.slots, i);
    assert SetsOk(t');
    assert forall k: nat :: Occupied(t', k) <==> Occupied(t, k) && k != i;
  }

  lemma {:induction false} ServeKeeps(t: Table, rset: set<int>, results: map<int, ReadResult>, nready: int, i: nat)
    requires Inv(t)
    ensures Inv(Serve(t, rset, results, nready, i).table)
    decreases t.maxPos + 1 - i
  {
    if i <= t.maxPos {
      var fd := t.slots[i];
      if fd == FREE || fd !in rset {
        ServeKeeps(t, rset, results, nready, i + 1);
      } else if ResultOf(results, fd) == EndOfFile {
        ClosedKeeps(t, i);
      } else if ResultOf(results, fd) == Data {
        ServeKeeps(t, rset, results, nready - 1, i + 1);
      }
    }
  }

  lemma RoundKeeps(t: Table, e: Event)
    requires Inv(t) && Step(t, e).Some?
    ensures Inv(Step(t, e).value)
  {
    var nready := |e.rset|;
    if t.lfd in e.rset {
      AcceptedKeeps(t, e.fd);
      ServeKeeps(Accepted(t, e.fd).value, e.rset, e.results, nready - 1, 0);
    } else {
      ServeKeeps(t, e.rset, e.results, nready, 0);
    }
  }

  ghost predicate ReachableServer(size: nat, lfd: int, open: set<int>, t: Table) {
    0 <= lfd < size && lfd in open && Reachable(Step, Initial(size, lfd, open), t)
  }

  /** The set given to select is the listener and the occupied slots, all of them open; slots
      hold distinct descriptors at positions up to `maxPos`; `maxfd` bounds the set. */
  lemma TablesAgree(size: nat, lfd: int, open: set<int>, t: Table)
    requires ReachableServer(size, lfd, open, t)
    ensures Inv(t)
  {
    var s0, inv := Initial(size, lfd, open), (t: Table) => Inv(t);
    assert Inv(s0);
    assert Inductive(Step, inv) by {
      forall t, e | inv(t) && Step(t, e).Some? ensures inv(Step(t, e).value) {
        RoundKeeps(t, e);
      }
    }
    Invariance(Step, inv, s0, t);
  }

  // ----- Who is served in a round -----

  /** The ready clients, in the order of their slots from `i` on. */
  function Ready(slots: seq<int>, rset: set<int>, i: nat): seq<int>
    decreases |slots| - i
  {
    if i >= |slots| then []
    else (if slots[i] != FREE && slots[i] in rset then [slots[i]] else []) + Ready(slots, rset, i + 1)
  }

  /** The first descriptors up to one whose read does not return data. */
  function UpToClose(fds: seq<int>, results: map<int, ReadResult>): seq<int> {
    if fds == [] then []
    else if ResultOf(results, fds[0]) != Data then [fds[0]]
    else [fds[0]] + UpToClose(fds[1..], results)
  }

  lemma {:induction false} NothingBeyond(t: Table, rset: set<int>, i: nat)
    requires SlotsOk(t) && i > t.maxPos
    ensures Ready(t.slots, rset, i) == []
    decreases |t.slots| - i
  {
    if i < |t.slots| {
      assert !Occupied(t, i);
      NothingBeyond(t, rset, i + 1);
    }
  }

  /** Counting down from the number of ready clients, the loop reads them in the order of their
      slots, and stops early only after a close or when all have been read. */
  lemma {:induction false} ServeReads(t: Table, rset: set<int>, results: map<int, ReadResult>, nready: int, i: nat)
    requires Inv(t) && i <= |t.slots| && nready == |Ready(t.slots, rset, i)|
    ensures Serve(t, rset, results, nready, i).served == UpToClose(Ready(t.slots, rset, i), results)
    decreases t.maxPos + 1 - i
  {
    if i > t.maxPos {
      NothingBeyond(t, rset, i);
    } else {
      var fd, rest := t.slots[i], Ready(t.slots, rset, i + 1);
      if fd == FREE || fd !in rset {
        assert Ready(t.slots, rset, i) == rest;
        ServeReads(t, rset, results, nready, i + 1);
      } else {
        assert Ready(t.slots, rset, i)[1..] == rest;
        if ResultOf(results, fd) == Data {
          if rest != [] {
            ServeReads(t, rset, results, nready - 1, i + 1);
          }
        }
      }
    }
  }

  ghost predicate NoRepeats(fds: seq<int>) {
    forall a, b :: 0 <= a < b < |fds| ==> fds[a] != fds[b]
  }

  lemma {:induction false} ReadyIs(t: Table, rset: set<int>, i: nat)
    requires SlotsOk(t) && i <= |t.slots|
    ensures NoRepeats(Ready(t.slots, rset, i))
    ensures forall f :: f in Ready(t.slots, rset, i) <==> f in rset && exists k: nat :: i <= k && Occupied(t, k) && t.slots[k] == f
    decreases |t.slots| - i
  {
    if i < |t.slots| {
      ReadyIs(t, rset, i + 1);
      assert Occupied(t, i) ==> t.slots[i] !in Ready(t.slots, rset, i + 1);
      var r := Ready(t.slots, rset, i);
      forall f ensures f in r <==> f in rset && exists k: nat :: i <= k && Occupied(t, k) && t.slots[k] == f {
        if f in rset && exists k: nat :: i <= k && Occupied(t, k) && t.slots[k] == f {
          var k: nat :| i <= k && Occupied(t, k) && t.slots[k] == f;
          assert k == i || (i + 1 <= k && Occupied(t, k) && t.slots[k] == f);
        }
        if f in r {
          if f == t.slots[i] && Occupied(t, i) {
            assert i <= i && Occupied(t, i) && t.slots[i] == f;
          }
        }
      }
    }
  }

  /** A sequence without repeats is as long as its set. */
  lemma {:induction false} LengthOfSet(fds: seq<int>)
    requires NoRepeats(fds)
    ensures |set f | f in fds| == |fds|
    decreases |fds|
  {
    if fds != [] {
      LengthOfSet(fds[1..]);
      assert (set f | f in fds) == {fds[0]} + (set f | f in fds[1..]);
    }
  }

  lemma ReadyClients(t: Table, rset: set<int>)
    requires Inv(t) && rset <= t.allset
    ensures NoRepeats(Ready(t.slots, rset, 0)) && |Ready(t.slots, rset, 0)| == |rset - {t.lfd}|
    ensures forall f :: f in Ready(t.slots, rset, 0) <==> f in rset - {t.lfd}
  {
    var r := Ready(t.slots, rset, 0);
    ReadyIs(t, rset, 0);
    forall f ensures f in r <==> f in rset - {t.lfd} {
      if f in rset - {t.lfd} {
        assert f in Clients(t.slots);
        var k :| 0 <= k < |t.slots| && t.slots[k] != FREE && t.slots[k] == f;
        assert 0 <= k && Occupied(t, k) && t.slots[k] == f;
      }
    }
    LengthOfSet(r);
    assert (set f | f in r) == rset - {t.lfd};
  }

  lemma {:induction false} UpToCloseIs(fds: seq<int>, results: map<int, ReadResult>)
    ensures UpToClose(fds, results) <= fds
    ensures (forall f :: f in fds ==> ResultOf(results, f) == Data) ==> UpToClose(fds, results) == fds
    decreases |fds|
  {
    if fds != [] {
      UpToCloseIs(fds[1..], results);
      assert fds == [fds[0]] + fds[1..];
    }
  }

  /** The table a round serves: after accept, if the listener is ready. */
  function Serving(t: Table, e: Event): Table {
    if t.lfd in e.rset && Accepted(t, e.fd).Some? then Accepted(t, e.fd).value else t
  }

  lemma ServingKeeps(t: Table, e: Event)
    requires Inv(t) && Step(t, e).Some?
    ensures Inv(Serving(t, e)) && Serving(t, e).lfd == t.lfd && e.rset <= Serving(t, e).allset
  {
    assert e.rset <= t.allset by {
      assert forall f :: f in e.rset ==> f in t.allset;
    }
    if t.lfd in e.rset {
      AcceptedKeeps(t, e.fd);
    }
  }

  /** A round serves with as many ready descriptors left as there are besides the listener. */
  lemma RoundCounts(t: Table, e: Event)
    requires Step(t, e).Some?
    ensures var n := |e.rset - {t.lfd}|;
      Round(t, e.rset, e.fd, e.results).served ==
        if n == 0 then [] else Serve(Serving(t, e), e.rset, e.results, n, 0).served
  {
    var others := e.rset - {t.lfd};
    assert e.rset == if t.lfd in e.rset then others + {t.lfd} else others;
  }

  lemma RoundReads(t: Table, e: Event)
    requires Inv(t) && Step(t, e).Some?
    ensures Round(t, e.rset, e.fd, e.results).served == UpToClose(Ready(Serving(t, e).slots, e.rset, 0), e.results)
  {
    ServingKeeps(t, e);
    RoundCounts(t, e);
    ReadyClients(Serving(t, e), e.rset);
    if |e.rset - {t.lfd}| > 0 {
      ServeReads(Serving(t, e), e.rset, e.results, |e.rset - {t.lfd}|, 0);
    }
  }

  lemma PrefixKeeps(p: seq<int>, fds: seq<int>)
    requires p <= fds && NoRepeats(fds)
    ensures NoRepeats(p) && forall f :: f in p ==> f in fds
  {}

  /** A round reads each ready client at most once and nothing else; unless a client closes in
      it, it reads them all, although the count of ready descriptors may end it early. */
  lemma RoundServesReady(size: nat, lfd: int, open: set<int>, t: Table, e: Event)
    requires ReachableServer(size, lfd, open, t) && Step(t, e).Some?
    ensures var served := Round(t, e.rset, e.fd, e.results).served;
      && NoRepeats(served)
      && (forall f :: f in served ==> f in e.rset - {lfd})
      && ((forall f :: f in e.rset ==> ResultOf(e.results, f) == Data) ==>
            forall f :: f in e.rset - {lfd} ==> f in served)
  {
    assert t.lfd == lfd by { ListenerConst(size, lfd, open, t); }
    assert Inv(t) by { TablesAgree(size, lfd, open, t); }
    ServedFrom(t, e);
  }

  lemma ServedFrom(t: Table, e: Event)
    requires Inv(t) && Step(t, e).Some?
    ensures var served := Round(t, e.rset, e.fd, e.results).served;
      && NoRepeats(served)
      && (forall f :: f in served ==> f in e.rset - {t.lfd})
      && ((forall f :: f in e.rset ==> ResultOf(e.results, f) == Data) ==>
            forall f :: f in e.rset - {t.lfd} ==> f in served)
  {
    RoundReads(t, e);
    ReadyFrom(t, e);
    var r := Ready(Serving(t, e).slots, e.rset, 0);
    UpToCloseIs(r, e.results);
    PrefixKeeps(UpToClose(r, e.results), r);
  }

  lemma ReadyFrom(t: Table, e: Event)
    requires Inv(t) && Step(t, e).Some?
    ensures var r := Ready(Serving(t, e).slots, e.rset, 0);
      NoRepeats(r) && forall f :: f in r <==> f in e.rset - {t.lfd}
  {
    ServingKeeps(t, e);
    ReadyClients(Serving(t, e), e.rset);
  }

  lemma ListenerConst(size: nat, lfd: int, open: set<int>, t: Table)
    requires ReachableServer(size, lfd, open, t)
    ensures t.lfd == lfd && |t.slots| == size
  {
    var inv := (t: Table) => t.lfd == lfd && |t.slots| == size;
    assert Inductive(Step, inv) by {
      forall t, e | inv(t) && Step(t, e).Some? ensures inv(Step(t, e).value) {
        RoundConst(t, e);
      }
    }
    Invariance(Step, inv, Initial(size, lfd, open), t);
  }

  lemma RoundConst(t: Table, e: Event)
    requires Step(t, e).Some?
    ensures Step(t, e).value.lfd == t.lfd && |Step(t, e).value.slots| == |t.slots|
  {
    if t.lfd in e.rset {
      ServeConst(Accepted(t, e.fd).value, e.rset, e.results, |e.rset| - 1, 0);
    } else {
      ServeConst(t, e.rset, e.results, |e.rset|, 0);
    }
  }

  lemma {:induction false} ServeConst(t: Table, rset: set<int>, results: map<int, ReadResult>, nready: int, i: nat)
    ensures var t' := Serve(t, rset, results, nready, i).table; t'.lfd == t.lfd && |t'.slots| == |t.slots|
    decreases t.maxPos + 1 - i
  {
    if i <= t.maxPos && i < |t.slots| {
      ServeConst(t, rset, results, nready, i + 1);
      ServeConst(t, rset, results, nready - 1, i + 1);
    }
  }

  // ----- The table never overflows -----

  lemma {:induction false} SizeBelow(s: set<int>, n: nat)
    requires forall x :: x in s ==> 0 <= x < n
    ensures |s| <= n
    decreases n
  {
    if n > 0 {
      SizeBelow(s - {n - 1}, n - 1);
      assert s - {n - 1} == if n - 1 in s then s - {n - 1} else s;
    } else {
      assert forall x :: x !in s;
    }
  }

  /** The listener always keeps one descriptor from the clients. */
  lemma FewerClients(t: Table)
    requires Inv(t)
    ensures |Clients(t.slots)| < |t.slots|
  {
    forall x | x in Clients(t.slots) ensures x != t.lfd && 0 <= x < |t.slots| {
      var k :| 0 <= k < |t.slots| && t.slots[k] != FREE && t.slots[k] == x;
      assert Occupied(t, k);
    }
    SizeBelow(Clients(t.slots) + {t.lfd}, |t.slots|);
  }

  lemma FullTable(t: Table)
    requires Inv(t) && forall k: nat :: k < |t.slots| ==> t.slots[k] != FREE
    ensures |Clients(t.slots)| == |t.slots|
  {
    forall a, b | 0 <= a < b < |t.slots| ensures t.slots[a] != t.slots[b] {
      assert Occupied(t, a) && Occupied(t, b);
    }
    LengthOfSet(t.slots);
    assert (set f | f in t.slots) == Clients(t.slots);
  }

  /** Descriptors below the table's size never exhaust it: the program cannot exit with too
      many clients. */
  lemma NeverTooManyClients(size: nat, lfd: int, open: set<int>, t: Table, fd: int)
    requires ReachableServer(size, lfd, open, t)
    ensures Accepted(t, fd).Some?
  {
    TablesAgree(size, lfd, open, t);
    FewerClients(t);
    if Find(t.slots, FREE, 0) == |t.slots| {
      FullTable(t);
    }
  }
}
