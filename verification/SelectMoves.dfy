// What a round of the select server does to its table, told by the slots and sets alone, and which
// descriptors it has open.

module SelectMoves {
  import opened Machines
  import opened SelectServer

  /** `i` is the lowest free slot. */
  ghost predicate LowestFree(t: Table, i: nat) {
    i < |t.slots| && t.slots[i] == -1 && forall k :: 0 <= k < i ==> t.slots[k] != -1
  }

  /** A new connection gets the lowest free slot; `maxPos` and `maxfd` grow only to what it got. */
  lemma AcceptMoves(t: Table, fd: int, i: nat)
    requires LowestFree(t, i)
    ensures Accepted(t, fd).Some?
    ensures var t' := Accepted(t, fd).value;
      && t'.slots == t.slots[i := fd] && t'.lfd == t.lfd
      && t'.allset == t.allset + {fd} && t'.open == t.open + {fd}
      && t'.maxPos >= t.maxPos && t'.maxPos >= i && (t'.maxPos == t.maxPos || t'.maxPos == i)
      && t'.maxfd >= t.maxfd && t'.maxfd >= fd && (t'.maxfd == t.maxfd || t'.maxfd == fd)
  {}

  /** At the end of a client's stream its slot becomes free, and its descriptor is closed and leaves the
      set. */
  lemma CloseMoves(t: Table, i: nat)
    requires Inv(t) && i < |t.slots| && t.slots[i] != -1
    ensures Closed(t, t.slots[i]) ==
      t.(slots := t.slots[i := -1], allset := t.allset - {t.slots[i]}, open := t.open - {t.slots[i]})
  {
    assert Occupied(t, i);
    ClosedKeeps(t, i);
  }

  /** How a pass ends, by the results of its reads: only the last of them can be other than data. */
  ghost predicate EndsBy(t: Table, p: Pass, results: map<int, ReadResult>) {
    && (forall k :: 0 <= k < |p.served| - 1 ==> ResultOf(results, p.served[k]) == Data)
    && (p.served == [] ==> p.table == t && p.ending != Exit)
    && (p.served != [] ==>
          var f := p.served[|p.served| - 1];
          && f in Clients(t.slots)
          && (p.ending == Exit <==> ResultOf(results, f) == ReadError)
          && p.table == (if ResultOf(results, f) == EndOfFile then Closed(t, f) else t))
  }

  lemma {:induction false} ServeEnds(t: Table, rset: set<int>, results: map<int, ReadResult>, nready: int, i: nat)
    ensures EndsBy(t, Serve(t, rset, results, nready, i), results)
    decreases t.maxPos + 1 - i
  {
    if i <= t.maxPos && i < |t.slots| {
      ServeEnds(t, rset, results, nready, i + 1);
      ServeEnds(t, rset, results, nready - 1, i + 1);
    }
  }

  /** The clients at the end of whose streams a pass has come. */
  function Ended(served: seq<int>, results: map<int, ReadResult>): set<int> {
    set f | f in served && ResultOf(results, f) == EndOfFile
  }

  lemma OneEnded(served: seq<int>, results: map<int, ReadResult>)
    requires served != [] && forall k :: 0 <= k < |served| - 1 ==> ResultOf(results, served[k]) == Data
    ensures var f := served[|served| - 1];
      Ended(served, results) == if ResultOf(results, f) == EndOfFile then {f} else {}
  {
    forall g | g in served && g != served[|served| - 1] ensures ResultOf(results, g) == Data {}
  }

  lemma ClosedClients(t: Table, f: int)
    requires Inv(t) && f in Clients(t.slots)
    ensures Closed(t, f).open == t.open - {f} && Closed(t, f).allset == t.allset - {f}
    ensures Clients(Closed(t, f).slots) == Clients(t.slots) - {f}
  {
    var i :| 0 <= i < |t.slots| && t.slots[i] != FREE && t.slots[i] == f;
    assert Occupied(t, i);
    ClosedKeeps(t, i);
    forall j: nat | j < |t.slots| && j != i ensures t.slots[j] != f {
      assert Occupied(t, i) && (Occupied(t, j) <==> t.slots[j] != FREE);
    }
    ClientsRemove(t.slots, i);
  }

  /** In terms of sets. */
  lemma PassMoves(t: Table, p: Pass, results: map<int, ReadResult>)
    requires Inv(t) && EndsBy(t, p, results)
    ensures var ended := Ended(p.served, results);
      && ended <= Clients(t.slots)
      && p.table.open == t.open - ended && p.table.allset == t.allset - ended
      && Clients(p.table.slots) == Clients(t.slots) - ended
    ensures p.ending == Exit <==> exists f :: f in p.served && ResultOf(results, f) == ReadError
  {
    if p.served == [] {
      assert Ended(p.served, results) == {};
    } else {
      var f := p.served[|p.served| - 1];
      OneEnded(p.served, results);
      if ResultOf(results, f) == EndOfFile {
        ClosedClients(t, f);
      }
    }
  }

  /** What a round of any run opens. */
  function Opens(t: Table, e: Event): set<int> { if t.lfd in e.rset then {e.fd} else {} }

  /** From `t` to `t'`, with `added` opened and `ended` closed: slots, set and open descriptors change
      alike. */
  ghost predicate SetsMove(t: Table, t': Table, added: set<int>, ended: set<int>) {
    && ended <= Clients(t.slots)
    && t'.open == t.open + added - ended && t'.allset == t.allset + added - ended
    && Clients(t'.slots) == Clients(t.slots) + added - ended
  }

  /** A round opens the descriptor that accept returns, if it is called, and closes those read to their
      end; the program goes on exactly when no read fails. */
  lemma RoundMoves(size: nat, lfd: int, open: set<int>, t: Table, e: Event)
    requires ReachableServer(size, lfd, open, t) && Possible(t, e)
    ensures var served := Round(t, e.rset, e.fd, e.results).served;
      && (Step(t, e).Some? <==> forall f :: f in served ==> ResultOf(e.results, f) != ReadError)
      && (Step(t, e).Some? ==> SetsMove(t, Step(t, e).value, Opens(t, e), Ended(served, e.results)))
  {
    TablesAgree(size, lfd, open, t);
    NeverTooManyClients(size, lfd, open, t, e.fd);
    RoundEnds(t, e);
    ServingKept(t, e);
    PassMoves(Serving(t, e), Round(t, e.rset, e.fd, e.results), e.results);
    if Step(t, e).Some? {
      RoundSets(t, e);
    }
  }

  lemma ServingKept(t: Table, e: Event)
    requires Inv(t) && Possible(t, e) && Accepted(t, e.fd).Some?
    ensures Inv(Serving(t, e))
  {
    if t.lfd in e.rset {
      AcceptedKeeps(t, e.fd);
    }
  }

  /** What accept adds is not read in the same round. */
  lemma NewUnread(t: Table, e: Event)
    requires Inv(t) && Step(t, e).Some?
    ensures Opens(t, e) !! Ended(Round(t, e.rset, e.fd, e.results).served, e.results)
  {
    ServedFrom(t, e);
  }

  lemma ServingSets(t: Table, e: Event)
    requires Inv(t) && Possible(t, e) && Accepted(t, e.fd).Some?
    ensures var t1 := Serving(t, e);
      && t1.open == t.open + Opens(t, e) && t1.allset == t.allset + Opens(t, e)
      && Clients(t1.slots) == Clients(t.slots) + Opens(t, e)
  {
    if t.lfd in e.rset {
      ClientsAdd(t.slots, Find(t.slots, FREE, 0), e.fd);
    }
  }

  lemma RoundSets(t: Table, e: Event)
    requires Inv(t) && Step(t, e).Some?
    ensures SetsMove(t, Step(t, e).value, Opens(t, e), Ended(Round(t, e.rset, e.fd, e.results).served, e.results))
  {
    var p := Round(t, e.rset, e.fd, e.results);
    assert Accepted(t, e.fd).Some? by { FreeSlotLeft(t); }
    RoundEnds(t, e);
    ServingKept(t, e);
    PassMoves(Serving(t, e), p, e.results);
    ServingSets(t, e);
    NewUnread(t, e);
  }

  lemma FreeSlotLeft(t: Table)
    requires Inv(t)
    ensures Find(t.slots, FREE, 0) < |t.slots|
  {
    FewerClients(t);
    if Find(t.slots, FREE, 0) == |t.slots| {
      FullTable(t);
    }
  }

  lemma RoundEnds(t: Table, e: Event)
    requires Inv(t) && Possible(t, e)
    ensures Accepted(t, e.fd).Some? ==> EndsBy(Serving(t, e), Round(t, e.rset, e.fd, e.results), e.results)
  {
    if Accepted(t, e.fd).Some? {
      if t.lfd in e.rset {
        ServeEnds(Accepted(t, e.fd).value, e.rset, e.results, |e.rset| - 1, 0);
      } else {
        ServeEnds(t, e.rset, e.results, |e.rset|, 0);
      }
    }
  }

  ghost predicate OpenAre(open: set<int>, t: Table) {
    Inv(t) && t.open == open + Clients(t.slots) && Clients(t.slots) !! open
  }

  lemma SetsKeep(open: set<int>, t: Table, t': Table, added: set<int>, ended: set<int>)
    requires t.open == open + Clients(t.slots) && Clients(t.slots) !! open
    requires SetsMove(t, t', added, ended) && added !! t.open
    ensures t'.open == open + Clients(t'.slots) && Clients(t'.slots) !! open
  {}

  lemma OpenStep(open: set<int>, t: Table, e: Event)
    requires OpenAre(open, t) && Step(t, e).Some?
    ensures OpenAre(open, Step(t, e).value)
  {
    RoundKeeps(t, e);
    RoundSets(t, e);
    SetsKeep(open, t, Step(t, e).value, Opens(t, e), Ended(Round(t, e.rset, e.fd, e.results).served, e.results));
  }

  /** In every run the open descriptors are those open at the start and exactly the clients in the slots;
      no client has a descriptor that was open at the start. */
  lemma OpenDescriptors(size: nat, lfd: int, open: set<int>, t: Table)
    requires ReachableServer(size, lfd, open, t)
    ensures t.open == open + Clients(t.slots) && Clients(t.slots) !! open
  {
    var s0, inv := Initial(size, lfd, open), (t: Table) => OpenAre(open, t);
    assert OpenAre(open, s0);
    assert Inductive(Step, inv) by {
      forall t, e | inv(t) && Step(t, e).Some? ensures inv(Step(t, e).value) {
        OpenStep(open, t, e);
      }
    }
    Invariance(Step, inv, s0, t);
  }
}
