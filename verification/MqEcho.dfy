// The echo service over one typed message queue, with any number of clients.

module MqEcho {
  import opened Machines
  import opened Sums

  /** The first four bytes of the text carry the sender's pid. */
  datatype Message = Message(mtype: int, pid: int, text: string)

  const TO_SERVER := 1

  /** A client keeps one message buffer: `header` is the pid field in it, which every reply
      overwrites. `requests` and `replies` record what it sent and got. */
  datatype Client = Client(pid: int, header: int, waiting: bool, requests: seq<string>, replies: seq<string>)

  /** The server either waits for a request or holds one it is about to send back. */
  datatype Server = Receiving | Holding(msg: Message)

  datatype State = State(queue: seq<Message>, capacity: nat, server: Server, clients: seq<Client>)

  function Initial(capacity: nat, pids: seq<int>): State {
    State([], capacity, Receiving,
          seq(|pids|, i requires 0 <= i < |pids| => Client(pids[i], pids[i], false, [], [])))
  }

  /** The first message of type `t`, or the length of the queue. */
  function FirstOfType(q: seq<Message>, t: int): (k: nat)
    ensures k <= |q| && (k < |q| ==> q[k].mtype == t)
    ensures forall j :: 0 <= j < k ==> q[j].mtype != t
  {
    if q == [] || q[0].mtype == t then 0 else 1 + FirstOfType(q[1..], t)
  }

  function Without(q: seq<Message>, k: nat): seq<Message>
    requires k < |q|
  {
    q[..k] + q[k + 1..]
  }

  datatype Event = Request(i: nat, text: string) | ServerReceive | ServerSend | Reply(i: nat)

  /** msgsnd blocks while the queue is full, msgrcv while there is no message of its type. */
  function Step(s: State, e: Event): Option<State> {
    match e
    case Request(i, text) =>
      if i >= |s.clients| || s.clients[i].waiting || |s.queue| >= s.capacity then None
      else
        var c := s.clients[i];
        Some(s.(queue := s.queue + [Message(TO_SERVER, c.header, text)],
                clients := s.clients[i := c.(waiting := true, requests := c.requests + [text])]))
    case ServerReceive =>
      var k := FirstOfType(s.queue, TO_SERVER);
      if s.server.Holding? || k == |s.queue| then None
      else Some(s.(queue := Without(s.queue, k), server := Holding(s.queue[k].(mtype := s.queue[k].pid))))
    case ServerSend =>
      if s.server.Receiving? || |s.queue| >= s.capacity then None
      else Some(s.(queue := s.queue + [s.server.msg], server := Receiving))
    case Reply(i) =>
      if i >= |s.clients| || !s.clients[i].waiting then None
      else
        var c := s.clients[i];
        var k := FirstOfType(s.queue, c.pid);
        if k == |s.queue| then None
        else
          var m := s.queue[k];
          Some(s.(queue := Without(s.queue, k),
                  clients := s.clients[i := c.(header := m.pid, waiting := false, replies := c.replies + [m.text])]))
  }

  // ----- The invariant -----

  ghost predicate Pids(pids: seq<int>) {
    && (forall i :: 0 <= i < |pids| ==> pids[i] > 1)
    && (forall i, j :: 0 <= i < j < |pids| ==> pids[i] != pids[j])
  }

  ghost predicate ClientOk(c: Client) {
    && c.header == c.pid && c.pid > 1
    && (if c.waiting then c.requests != [] && c.replies == c.requests[..|c.requests| - 1]
        else c.replies == c.requests)
  }

  /** `m` is the outstanding request of `c`, or the reply to it. */
  predicate Owns(c: Client, m: Message) {
    && c.waiting && c.requests != [] && m.pid == c.pid
    && m.text == c.requests[|c.requests| - 1]
    && (m.mtype == TO_SERVER || m.mtype == c.pid)
  }

  predicate OwnedBy(s: State, i: nat, m: Message) {
    i < |s.clients| && Owns(s.clients[i], m)
  }

  function Waiting(c: Client): int { if c.waiting then 1 else 0 }

  function HasPid(pid: int): Message -> int { (m: Message) => if m.pid == pid then 1 else 0 }

  /** How many messages of `pid` there are, queued or held by the server. */
  function MessagesOf(s: State, pid: int): int {
    Sum(s.queue, HasPid(pid)) + (if s.server.Holding? then HasPid(pid)(s.server.msg) else 0)
  }

  ghost predicate ClientsOk(s: State) {
    && (forall i: nat :: i < |s.clients| ==> ClientOk(s.clients[i]))
    && (forall i: nat, j: nat :: i < j < |s.clients| ==> s.clients[i].pid != s.clients[j].pid)
  }

  /** A waiting client has one message in the system, another none. */
  ghost predicate CountsOk(s: State) {
    forall i: nat :: i < |s.clients| ==> MessagesOf(s, s.clients[i].pid) == Waiting(s.clients[i])
  }

  ghost predicate Owned(s: State, m: Message) { exists i: nat :: OwnedBy(s, i, m) }

  ghost predicate OwnersOk(s: State) {
    && (forall m :: m in s.queue ==> Owned(s, m))
    && (s.server.Holding? ==> s.server.msg.mtype == s.server.msg.pid && Owned(s, s.server.msg))
  }

  ghost predicate TotalOk(s: State) {
    |s.queue| + (if s.server.Holding? then 1 else 0) == Sum(s.clients, Waiting)
  }

  ghost predicate MessagesOk(s: State) { CountsOk(s) && OwnersOk(s) && TotalOk(s) }

  ghost predicate Inv(s: State) { ClientsOk(s) && MessagesOk(s) }

  lemma {:induction false} SumWithout(q: seq<Message>, k: nat, f: Message -> int)
    requires k < |q|
    ensures Sum(Without(q, k), f) == Sum(q, f) - f(q[k])
    decreases |q|
  {
    var n := |q| - 1;
    if k == n {
      assert Without(q, k) == q[..n];
    } else {
      SumWithout(q[..n], k, f);
      assert Without(q, k) == Without(q[..n], k) + [q[n]];
      SumAppend(Without(q[..n], k), q[n], f);
    }
  }

  /** With no message of `pid` counted, there is none. */
  lemma NoneCounted(q: seq<Message>, pid: int, m: Message)
    requires Sum(q, HasPid(pid)) <= 0 && m in q
    ensures m.pid != pid
  {
    var k :| 0 <= k < |q| && q[k] == m;
    SumBoundsElement(q, k, HasPid(pid));
  }

  lemma CountNonNegative(s: State, pid: int)
    ensures Sum(s.queue, HasPid(pid)) >= 0
  {
    SumNonNegative(s.queue, HasPid(pid));
  }

  lemma RequestCounts(s: State, i: nat, text: string)
    requires Inv(s) && Step(s, Request(i, text)).Some?
    ensures CountsOk(Step(s, Request(i, text)).value)
  {
    var s', m := Step(s, Request(i, text)).value, Message(TO_SERVER, s.clients[i].header, text);
    assert ClientOk(s.clients[i]);
    forall j: nat | j < |s.clients| ensures MessagesOf(s', s'.clients[j].pid) == Waiting(s'.clients[j]) {
      SumAppend(s.queue, m, HasPid(s.clients[j].pid));
    }
  }

  lemma RequestOwners(s: State, i: nat, text: string)
    requires Inv(s) && Step(s, Request(i, text)).Some?
    ensures OwnersOk(Step(s, Request(i, text)).value)
  {
    var s' := Step(s, Request(i, text)).value;
    assert ClientOk(s.clients[i]);
    forall m | m in s.queue || s.server == Holding(m) ensures Owned(s', m) {
      var j: nat :| OwnedBy(s, j, m);
      assert OwnedBy(s', j, m);
    }
    forall m | m in s'.queue && m !in s.queue ensures Owned(s', m) {
      assert OwnedBy(s', i, m);
    }
  }

  lemma RequestKeeps(s: State, i: nat, text: string)
    requires Inv(s) && Step(s, Request(i, text)).Some?
    ensures Inv(Step(s, Request(i, text)).value)
  {
    var s', c := Step(s, Request(i, text)).value, s.clients[i];
    RequestCounts(s, i, text);
    RequestOwners(s, i, text);
    SumUpdate(s.clients, i, s'.clients[i], Waiting);
    assert ClientOk(c);
    assert (c.requests + [text])[..|c.requests|] == c.requests;
  }

  lemma ServerReceiveKeeps(s: State)
    requires Inv(s) && Step(s, ServerReceive).Some?
    ensures Inv(Step(s, ServerReceive).value)
  {
    var s', k := Step(s, ServerReceive).value, FirstOfType(s.queue, TO_SERVER);
    var m := s.queue[k];
    forall j: nat | j < |s.clients| ensures MessagesOf(s', s'.clients[j].pid) == Waiting(s'.clients[j]) {
      SumWithout(s.queue, k, HasPid(s.clients[j].pid));
    }
    forall m' | m' in s'.queue ensures Owned(s', m') {
      assert m' in s.queue;
      var j: nat :| OwnedBy(s, j, m');
      assert OwnedBy(s', j, m');
    }
    assert m in s.queue;
    var j: nat :| OwnedBy(s, j, m);
    assert OwnedBy(s', j, s'.server.msg);
  }

  lemma ServerSendKeeps(s: State)
    requires Inv(s) && Step(s, ServerSend).Some?
    ensures Inv(Step(s, ServerSend).value)
  {
    var s' := Step(s, ServerSend).value;
    forall j: nat | j < |s.clients| ensures MessagesOf(s', s'.clients[j].pid) == Waiting(s'.clients[j]) {
      SumAppend(s.queue, s.server.msg, HasPid(s.clients[j].pid));
    }
    forall m | m in s'.queue ensures Owned(s', m) {
      assert m in s.queue || m == s.server.msg;
      var j: nat :| OwnedBy(s, j, m);
      assert OwnedBy(s', j, m);
    }
  }

  /** The message a client takes is the reply to its own outstanding request. */
  lemma OwnReply(s: State, i: nat)
    requires Inv(s) && Step(s, Reply(i)).Some?
    ensures var k := FirstOfType(s.queue, s.clients[i].pid); k < |s.queue| && Owns(s.clients[i], s.queue[k])
  {
    var k := FirstOfType(s.queue, s.clients[i].pid);
    assert s.queue[k] in s.queue;
    assert ClientOk(s.clients[i]);
    var j: nat :| OwnedBy(s, j, s.queue[k]);
  }

  lemma ReplyClients(s: State, i: nat)
    requires Inv(s) && Step(s, Reply(i)).Some?
    ensures ClientsOk(Step(s, Reply(i)).value)
  {
    OwnReply(s, i);
    var c := s.clients[i];
    assert ClientOk(c);
    assert c.requests == c.requests[..|c.requests| - 1] + [c.requests[|c.requests| - 1]];
  }

  lemma ReplyCounts(s: State, i: nat)
    requires Inv(s) && Step(s, Reply(i)).Some?
    ensures CountsOk(Step(s, Reply(i)).value)
  {
    OwnReply(s, i);
    var s', k := Step(s, Reply(i)).value, FirstOfType(s.queue, s.clients[i].pid);
    forall j: nat | j < |s.clients| ensures MessagesOf(s', s'.clients[j].pid) == Waiting(s'.clients[j]) {
      SumWithout(s.queue, k, HasPid(s.clients[j].pid));
    }
  }

  /** After its reply a client owns nothing, so every message left belongs to another. */
  lemma ReplyOwners(s: State, i: nat)
    requires Inv(s) && Step(s, Reply(i)).Some?
    ensures OwnersOk(Step(s, Reply(i)).value)
  {
    var s', c := Step(s, Reply(i)).value, s.clients[i];
    ReplyCounts(s, i);
    assert MessagesOf(s', s'.clients[i].pid) == 0;
    CountNonNegative(s', c.pid);
    forall m | m in s'.queue || s'.server == Holding(m) ensures Owned(s', m) {
      assert m.pid != c.pid by {
        if m in s'.queue {
          NoneCounted(s'.queue, c.pid, m);
        }
      }
      assert m in s.queue || s.server == Holding(m);
      var j: nat :| OwnedBy(s, j, m);
      assert OwnedBy(s', j, m);
    }
  }

  lemma ReplyKeeps(s: State, i: nat)
    requires Inv(s) && Step(s, Reply(i)).Some?
    ensures Inv(Step(s, Reply(i)).value)
  {
    ReplyClients(s, i);
    ReplyCounts(s, i);
    ReplyOwners(s, i);
    SumUpdate(s.clients, i, Step(s, Reply(i)).value.clients[i], Waiting);
  }

  lemma StepKeeps(s: State, e: Event)
    requires Inv(s) && Step(s, e).Some?
    ensures Inv(Step(s, e).value)
  {
    match e
    case Request(i, text) => RequestKeeps(s, i, text);
    case ServerReceive => ServerReceiveKeeps(s);
    case ServerSend => ServerSendKeeps(s);
    case Reply(i) => ReplyKeeps(s, i);
  }

  ghost predicate ReachableEcho(capacity: nat, pids: seq<int>, s: State) {
    Reachable(Step, Initial(capacity, pids), s)
  }

  ghost predicate InvFor(capacity: nat, pids: seq<int>, s: State) {
    && Inv(s) && s.capacity == capacity && |s.clients| == |pids|
    && (forall i :: 0 <= i < |pids| ==> s.clients[i].pid == pids[i])
    && |s.queue| <= capacity
  }

  lemma StepFrame(capacity: nat, pids: seq<int>, s: State, e: Event)
    requires InvFor(capacity, pids, s) && Step(s, e).Some?
    ensures InvFor(capacity, pids, Step(s, e).value)
  {
    StepKeeps(s, e);
    var s' := Step(s, e).value;
    assert s'.capacity == capacity && |s'.queue| <= capacity;
    assert forall i :: 0 <= i < |pids| ==> s'.clients[i].pid == s.clients[i].pid;
  }

  lemma InitialInv(capacity: nat, pids: seq<int>)
    requires Pids(pids)
    ensures InvFor(capacity, pids, Initial(capacity, pids))
  {
    SumUpperBound(Initial(capacity, pids).clients, Waiting, 0);
    SumNonNegative(Initial(capacity, pids).clients, Waiting);
  }

  lemma Invariant(capacity: nat, pids: seq<int>, s: State)
    requires Pids(pids) && ReachableEcho(capacity, pids, s)
    ensures InvFor(capacity, pids, s)
  {
    var inv := (s: State) => InvFor(capacity, pids, s);
    assert Inductive(Step, inv) by {
      forall s, e | InvFor(capacity, pids, s) && Step(s, e).Some? ensures InvFor(capacity, pids, Step(s, e).value) {
        StepFrame(capacity, pids, s, e);
      }
    }
    InitialInv(capacity, pids);
    Invariance(Step, inv, Initial(capacity, pids), s);
  }

  // ----- What holds of every run -----

  /** The k-th reply a client gets carries its own k-th request, and every request but the one
      outstanding has been answered. */
  lemma OwnReplies(capacity: nat, pids: seq<int>, s: State, i: nat)
    requires Pids(pids) && ReachableEcho(capacity, pids, s) && i < |s.clients|
    ensures var c := s.clients[i];
      c.replies <= c.requests && |c.requests| == |c.replies| + Waiting(c)
  {
    Invariant(capacity, pids, s);
    assert ClientOk(s.clients[i]);
  }

  /** A waiting client owns exactly one message in the system, which carries its request; other
      clients own none. */
  lemma OneMessageEach(capacity: nat, pids: seq<int>, s: State, i: nat, m: Message)
    requires Pids(pids) && ReachableEcho(capacity, pids, s) && i < |s.clients|
    ensures MessagesOf(s, s.clients[i].pid) == Waiting(s.clients[i])
    ensures m in s.queue && m.pid == s.clients[i].pid ==> m.mtype == 1 || m.mtype == s.clients[i].pid
    ensures (m in s.queue || s.server == Holding(m)) && m.pid == s.clients[i].pid ==> Owns(s.clients[i], m)
  {
    Invariant(capacity, pids, s);
    if (m in s.queue || s.server == Holding(m)) && m.pid == s.clients[i].pid {
      var j: nat :| OwnedBy(s, j, m);
    }
  }

  predicate IsRequest(e: Event) { e.Request? }

  /** With room for a message of every client, an answer always makes its way: while a client
      waits, some step is possible that needs no new input. */
  lemma AnswersProgress(capacity: nat, pids: seq<int>, s: State, i: nat)
    requires Pids(pids) && ReachableEcho(capacity, pids, s) && capacity >= |pids|
    requires i < |s.clients| && s.clients[i].waiting
    ensures exists e :: !IsRequest(e) && Step(s, e).Some?
  {
    Invariant(capacity, pids, s);
    forall k | 0 <= k < |s.clients| ensures 0 <= Waiting(s.clients[k]) <= 1 {}
    SumUpperBound(s.clients, Waiting, 1);
    SumBoundsElement(s.clients, i, Waiting);
    if s.server.Holding? {
      assert Step(s, ServerSend).Some?;
    } else {
      var m := s.queue[0];
      assert m in s.queue;
      var j: nat :| OwnedBy(s, j, m);
      if m.mtype == TO_SERVER {
        assert Step(s, ServerReceive).Some?;
      } else {
        assert Step(s, Reply(j)).Some?;
      }
    }
  }

  /** Message `k` is the first of the type, and `q'` is the queue without it. */
  ghost predicate TakesFirst(q: seq<Message>, q': seq<Message>, mtype: int, k: nat) {
    && k < |q| && q[k].mtype == mtype && (forall j :: 0 <= j < k ==> q[j].mtype != mtype)
    && |q'| == |q| - 1 && forall j :: 0 <= j < |q'| ==> q'[j] == if j < k then q[j] else q[j + 1]
  }

  /** The first of a type is taken, and the others stay in their order. */
  lemma TakesInOrder(q: seq<Message>, mtype: int)
    requires FirstOfType(q, mtype) < |q|
    ensures var k := FirstOfType(q, mtype); TakesFirst(q, Without(q, k), mtype, k)
  {}

  /** In every run a request is queued at the end, with type 1 and its sender's pid. */
  lemma RequestQueued(capacity: nat, pids: seq<int>, s: State, i: nat, text: string)
    requires Pids(pids) && ReachableEcho(capacity, pids, s) && Step(s, Request(i, text)).Some?
    ensures i < |pids| && Step(s, Request(i, text)).value.queue == s.queue + [Message(1, pids[i], text)]
  {
    Invariant(capacity, pids, s);
    assert ClientOk(s.clients[i]);
  }

  /** The server takes the oldest request and readdresses it to its sender. */
  lemma ServerTakesOldest(s: State) returns (k: nat)
    requires Step(s, ServerReceive).Some?
    ensures TakesFirst(s.queue, Step(s, ServerReceive).value.queue, 1, k)
    ensures Step(s, ServerReceive).value.server == Holding(Message(s.queue[k].pid, s.queue[k].pid, s.queue[k].text))
  {
    k := FirstOfType(s.queue, TO_SERVER);
    TakesInOrder(s.queue, TO_SERVER);
  }

  /** What it sends back is queued at the end. */
  lemma ReplyQueued(s: State)
    requires Step(s, ServerSend).Some?
    ensures s.server.Holding? && Step(s, ServerSend).value == s.(queue := s.queue + [s.server.msg], server := Receiving)
  {}

  /** In every run a client takes the first message of its own pid, and its text is the reply. */
  lemma ClientTakesOwn(capacity: nat, pids: seq<int>, s: State, i: nat) returns (k: nat)
    requires Pids(pids) && ReachableEcho(capacity, pids, s) && Step(s, Reply(i)).Some?
    ensures i < |pids| == |s.clients| == |Step(s, Reply(i)).value.clients|
    ensures TakesFirst(s.queue, Step(s, Reply(i)).value.queue, pids[i], k)
    ensures Step(s, Reply(i)).value.clients[i].replies == s.clients[i].replies + [s.queue[k].text]
  {
    assert |s.clients| == |pids| && s.clients[i].pid == pids[i] by { Invariant(capacity, pids, s); }
    k := FirstOfType(s.queue, pids[i]);
    TakesInOrder(s.queue, pids[i]);
  }

  ghost predicate Deadlock(s: State) {
    forall e :: Step(s, e).None?
  }

  /** No run ends in deadlock exactly when the queue can hold as many messages as there are
      clients. */
  lemma NoDeadlock(capacity: nat, pids: seq<int>)
    requires Pids(pids) && pids != []
    ensures (forall s :: ReachableEcho(capacity, pids, s) ==> !Deadlock(s)) <==> capacity >= |pids|
  {
    if capacity >= |pids| {
      forall s | ReachableEcho(capacity, pids, s) ensures !Deadlock(s) {
        Invariant(capacity, pids, s);
        if i: nat :| i < |s.clients| && s.clients[i].waiting {
          AnswersProgress(capacity, pids, s, i);
        } else {
          SumUpperBound(s.clients, Waiting, 0);
          assert Step(s, Request(0, "")).Some?;
        }
      }
    } else if capacity == 0 {
      var s0 := Initial(capacity, pids);
      ReachableStart(Step, s0);
      assert Deadlock(s0);
    } else {
      var s := Jammed(capacity, pids, capacity);
      FullIsDeadlock(s, capacity);
    }
  }

  /** Requests fill the queue while the server holds one more that it cannot send back. */
  ghost predicate Jam(s: State, k: nat) {
    && s.server.Holding? && |s.queue| == k && |s.clients| > k
    && (forall j :: 0 <= j < k ==> s.queue[j].mtype == TO_SERVER)
    && (forall i :: k < i < |s.clients| ==> !s.clients[i].waiting)
    && (forall i :: 0 <= i < |s.clients| ==> s.clients[i].pid > 1)
  }

  lemma {:induction false} Jammed(capacity: nat, pids: seq<int>, k: nat) returns (s: State)
    requires Pids(pids) && 0 < capacity < |pids| && k <= capacity
    ensures ReachableEcho(capacity, pids, s) && Jam(s, k) && s.capacity == capacity && |s.clients| == |pids|
    decreases k
  {
    var s0 := Initial(capacity, pids);
    if k == 0 {
      ReachableStart(Step, s0);
      ReachableStep(Step, s0, s0, Request(0, ""));
      var s1 := Step(s0, Request(0, "")).value;
      ReachableStep(Step, s0, s1, ServerReceive);
      s := Step(s1, ServerReceive).value;
    } else {
      var s1 := Jammed(capacity, pids, k - 1);
      ReachableStep(Step, s0, s1, Request(k, ""));
      s := Step(s1, Request(k, "")).value;
    }
  }

  lemma FullIsDeadlock(s: State, k: nat)
    requires Jam(s, k) && s.capacity == k
    ensures Deadlock(s)
  {
    forall i: nat | i < |s.clients| ensures FirstOfType(s.queue, s.clients[i].pid) == |s.queue| {
      var j := FirstOfType(s.queue, s.clients[i].pid);
    }
  }

  // ----- Every request is answered -----

  /** Steps to come before the message is answered, while it is queued. */
  function Weight(m: Message): int { if m.mtype == TO_SERVER then 3 else 1 }

  /** Steps to come before all messages are answered. */
  function StepsLeft(s: State): int {
    Sum(s.queue, Weight) + (if s.server.Holding? then 2 else 0)
  }

  /** Without new requests every step is one step less to come. */
  lemma AnswerStep(s: State, e: Event)
    requires Inv(s) && !IsRequest(e) && Step(s, e).Some?
    ensures StepsLeft(Step(s, e).value) == StepsLeft(s) - 1
  {
    match e
    case ServerReceive => SumWithout(s.queue, FirstOfType(s.queue, TO_SERVER), Weight);
    case ServerSend =>
      var i: nat :| OwnedBy(s, i, s.server.msg);
      assert ClientOk(s.clients[i]);
      SumAppend(s.queue, s.server.msg, Weight);
    case Reply(i) =>
      assert ClientOk(s.clients[i]);
      SumWithout(s.queue, FirstOfType(s.queue, s.clients[i].pid), Weight);
  }

  ghost predicate NoRequests(es: seq<Event>) { forall k :: 0 <= k < |es| ==> !IsRequest(es[k]) }

  /** Every client has its replies to the requests `asked` and waits for none. */
  ghost predicate Answered(asked: seq<Client>, s: State) {
    && |s.clients| == |asked| && s.queue == [] && s.server.Receiving?
    && forall i :: 0 <= i < |asked| ==> s.clients[i].replies == s.clients[i].requests == asked[i].requests
  }

  predicate SameRequests(cs: seq<Client>, ds: seq<Client>) {
    |cs| == |ds| && forall i :: 0 <= i < |cs| ==> cs[i].requests == ds[i].requests
  }

  lemma {:induction false} AnswersRun(capacity: nat, pids: seq<int>, s: State, es: seq<Event>)
    requires InvFor(capacity, pids, s) && Exec(Step, s, es).Some? && NoRequests(es)
    ensures var t := Exec(Step, s, es).value;
      InvFor(capacity, pids, t) && StepsLeft(t) == StepsLeft(s) - |es| && SameRequests(s.clients, t.clients)
    decreases |es|
  {
    if es != [] {
      AnswerStep(s, es[0]);
      SameRequestsStep(s, es[0]);
      StepFrame(capacity, pids, s, es[0]);
      AnswersRun(capacity, pids, Step(s, es[0]).value, es[1..]);
    }
  }

  /** Where nobody waits, nothing is left of any request. */
  lemma NobodyWaits(s: State)
    requires Inv(s) && forall i :: 0 <= i < |s.clients| ==> !s.clients[i].waiting
    ensures Answered(s.clients, s) && StepsLeft(s) == 0
  {
    SumUpperBound(s.clients, Waiting, 0);
    forall i: nat | i < |s.clients| ensures s.clients[i].replies == s.clients[i].requests {
      assert ClientOk(s.clients[i]);
    }
  }

  lemma StepsLeftNonNegative(s: State)
    ensures StepsLeft(s) >= 0
  {
    SumNonNegative(s.queue, Weight);
  }

  /** While somebody waits, one step less remains after a step that is possible. */
  lemma NextAnswer(capacity: nat, pids: seq<int>, s: State, i: nat) returns (e: Event, s': State)
    requires Pids(pids) && ReachableEcho(capacity, pids, s) && capacity >= |pids|
    requires i < |s.clients| && s.clients[i].waiting
    ensures !IsRequest(e) && Step(s, e) == Some(s') && ReachableEcho(capacity, pids, s')
    ensures 0 <= StepsLeft(s') == StepsLeft(s) - 1 && SameRequests(s.clients, s'.clients)
  {
    AnswersProgress(capacity, pids, s, i);
    e :| !IsRequest(e) && Step(s, e).Some?;
    s' := Step(s, e).value;
    assert StepsLeft(s') == StepsLeft(s) - 1 by {
      Invariant(capacity, pids, s);
      AnswerStep(s, e);
    }
    StepsLeftNonNegative(s');
    ReachableStep(Step, Initial(capacity, pids), s, e);
    SameRequestsStep(s, e);
  }

  lemma SameRequestsStep(s: State, e: Event)
    requires !IsRequest(e) && Step(s, e).Some?
    ensures SameRequests(s.clients, Step(s, e).value.clients)
  {}

  lemma AnsweredOf(cs: seq<Client>, ds: seq<Client>, s: State)
    requires SameRequests(cs, ds) && Answered(ds, s)
    ensures Answered(cs, s)
  {}

  /** The server and the clients can always bring all requests to their answers. */
  lemma {:induction false} AnswersExist(capacity: nat, pids: seq<int>, s: State) returns (es: seq<Event>)
    requires Pids(pids) && ReachableEcho(capacity, pids, s) && capacity >= |pids|
    ensures NoRequests(es) && Exec(Step, s, es).Some? && |es| == StepsLeft(s)
    ensures Answered(s.clients, Exec(Step, s, es).value)
    decreases StepsLeft(s)
  {
    if i: nat :| i < |s.clients| && s.clients[i].waiting {
      var e, s' := NextAnswer(capacity, pids, s, i);
      var rest := AnswersExist(capacity, pids, s');
      es := [e] + rest;
      assert es[1..] == rest;
      AnsweredOf(s.clients, s'.clients, Exec(Step, s', rest).value);
    } else {
      assert Inv(s) by { Invariant(capacity, pids, s); }
      NobodyWaits(s);
      es := [];
    }
  }

  /** With room for a message of every client, every run without new requests is part of one of
      exactly `StepsLeft` steps, after which every client has the reply to each request it made. */
  lemma AnswersComplete(capacity: nat, pids: seq<int>, s: State, es: seq<Event>) returns (more: seq<Event>)
    requires Pids(pids) && ReachableEcho(capacity, pids, s) && capacity >= |pids|
    requires Exec(Step, s, es).Some? && NoRequests(es)
    ensures NoRequests(more) && Exec(Step, s, es + more).Some? && |es + more| == StepsLeft(s)
    ensures Answered(s.clients, Exec(Step, s, es + more).value)
  {
    var t := Exec(Step, s, es).value;
    Invariant(capacity, pids, s);
    AnswersRun(capacity, pids, s, es);
    ReachableRun(Step, Initial(capacity, pids), s, es);
    more := AnswersExist(capacity, pids, t);
    ExecAppend(Step, s, es, more);
  }

  /** From here all requests made so far can be answered without new ones. */
  ghost predicate CanBeAnswered(s: State) {
    exists es :: NoRequests(es) && Exec(Step, s, es).Some? && Answered(s.clients, Exec(Step, s, es).value)
  }

  /** From every point of every run they can, exactly when the queue can hold a message of every
      client, or none at all, so that no request is ever made. */
  lemma AnsweredExactlyWhen(capacity: nat, pids: seq<int>)
    requires Pids(pids)
    ensures (forall s :: ReachableEcho(capacity, pids, s) ==> CanBeAnswered(s)) <==> capacity == 0 || capacity >= |pids|
  {
    if capacity >= |pids| {
      forall s | ReachableEcho(capacity, pids, s) ensures CanBeAnswered(s) {
        var es := AnswersExist(capacity, pids, s);
      }
    } else if capacity == 0 {
      forall s | ReachableEcho(capacity, pids, s) ensures CanBeAnswered(s) {
        NeverAsked(pids, s);
      }
    } else {
      var s := Jammed(capacity, pids, capacity);
      FullIsDeadlock(s, capacity);
      assert !CanBeAnswered(s);
    }
  }

  /** A queue without room takes no request. */
  lemma NeverAsked(pids: seq<int>, s: State)
    requires Pids(pids) && ReachableEcho(0, pids, s)
    ensures CanBeAnswered(s)
  {
    Invariant(0, pids, s);
    var inv := (s: State) => s.capacity == 0 && s.queue == [] && s.server.Receiving? && forall i :: 0 <= i < |s.clients| ==> !s.clients[i].waiting;
    assert Inductive(Step, inv);
    Invariance(Step, inv, Initial(0, pids), s);
    NobodyWaits(s);
    assert Exec(Step, s, []) == Some(s) && NoRequests([]);
  }
}
