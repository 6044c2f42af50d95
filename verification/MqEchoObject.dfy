// The echo service as objects: the queue, the server's one reused buffer, a client's.

module MqEchoObject {
  import opened Machines
  import opened MqEcho

  /** A System V message queue; a call that would block returns without effect. */
  class Queue {
    const capacity: nat
    var msgs: seq<Message>

    constructor (capacity: nat)
      ensures msgs == [] && this.capacity == capacity
    {
      msgs, this.capacity := [], capacity;
    }

    method Send(m: Message) returns (sent: bool)
      modifies this
      ensures sent == (|old(msgs)| < capacity)
      ensures msgs == if sent then old(msgs) + [m] else old(msgs)
    {
      sent := |msgs| < capacity;
      if sent {
        msgs := msgs + [m];
      }
    }

    /** The first message of the type leaves the queue. */
    method Receive(mtype: int) returns (m: Option<Message>)
      modifies this
      ensures var k := FirstOfType(old(msgs), mtype);
        if k == |old(msgs)| then m == None && msgs == old(msgs)
        else m == Some(old(msgs)[k]) && msgs == Without(old(msgs), k)
    {
      var k := 0;
      while k < |msgs| && msgs[k].mtype != mtype
        invariant k <= |msgs| && FirstOfType(msgs, mtype) == k + FirstOfType(msgs[k..], mtype)
      {
        assert msgs[k..][1..] == msgs[k + 1..];
        k := k + 1;
      }
      if k == |msgs| {
        return None;
      }
      m := Some(msgs[k]);
      msgs := Without(msgs, k);
    }
  }

  class EchoServer {
    var buf: Message
    var holding: bool

    ghost function View(): Server
      reads this
    {
      if holding then Holding(buf) else Receiving
    }

    constructor ()
      ensures View() == Receiving
    {
      buf, holding := Message(0, 0, ""), false;
    }

    /** Lines 31 to 39 of server.c. `s` is any state this server and queue are part of. */
    method Receive(q: Queue, ghost s: State) returns (done: bool)
      requires !holding && s.queue == q.msgs && s.server == View()
      modifies this, q
      ensures Step(s, ServerReceive) == if done then Some(s.(queue := q.msgs, server := View())) else None
      ensures !done ==> q.msgs == old(q.msgs) && View() == old(View())
    {
      var m := q.Receive(TO_SERVER);
      done := m.Some?;
      if done {
        buf := m.value;
        buf := buf.(mtype := buf.pid);
        holding := true;
      }
    }

    /** Line 40 of server.c. */
    method SendBack(q: Queue, ghost s: State) returns (done: bool)
      requires holding && s.queue == q.msgs && s.server == View() && s.capacity == q.capacity
      modifies this, q
      ensures Step(s, ServerSend) == if done then Some(s.(queue := q.msgs, server := View())) else None
      ensures !done ==> q.msgs == old(q.msgs) && View() == old(View())
    {
      done := q.Send(buf);
      holding := !done;
    }
  }

  class EchoClient {
    const pid: int
    var buf: Message
    var waiting: bool
    var requests: seq<string>
    var replies: seq<string>

    ghost function View(): Client
      reads this
    {
      Client(pid, buf.pid, waiting, requests, replies)
    }

    /** Lines 27 to 33 of client.c. */
    constructor (pid: int)
      ensures View() == Client(pid, pid, false, [], [])
    {
      this.pid := pid;
      buf, waiting, requests, replies := Message(TO_SERVER, pid, ""), false, [], [];
    }

    /** Lines 35 to 42 of client.c: the text goes into the buffer that still holds the last reply's
        pid. `i` is this client's place in `s`. */
    method Request(q: Queue, text: string, i: nat, ghost s: State) returns (done: bool)
      requires !waiting && i < |s.clients| && s.clients[i] == View()
      requires s.queue == q.msgs && s.capacity == q.capacity
      modifies this, q
      ensures Step(s, Event.Request(i, text)) ==
        if done then Some(s.(queue := q.msgs, clients := s.clients[i := View()])) else None
      ensures !done ==> q.msgs == old(q.msgs) && View() == old(View())
    {
      buf := buf.(text := text);
      buf := buf.(mtype := TO_SERVER);
      done := q.Send(buf);
      if done {
        buf := buf.(text := "");
        waiting, requests := true, requests + [text];
      }
    }

    /** Lines 44 to 49 of client.c. */
    method Reply(q: Queue, i: nat, ghost s: State) returns (done: bool)
      requires waiting && i < |s.clients| && s.clients[i] == View() && s.queue == q.msgs
      modifies this, q
      ensures Step(s, Event.Reply(i)) ==
        if done then Some(s.(queue := q.msgs, clients := s.clients[i := View()])) else None
      ensures !done ==> q.msgs == old(q.msgs) && View() == old(View())
    {
      var m := q.Receive(pid);
      done := m.Some?;
      if done {
        buf := m.value;
        waiting, replies := false, replies + [buf.text];
        buf := buf.(text := "");
      }
    }
  }
}
