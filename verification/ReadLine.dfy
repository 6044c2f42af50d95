// The line reader: peek at the stream, look for a newline, take the bytes up to it.

module ReadLine {
  import opened Bytes
  import opened Machines
  import opened Sockets

  const NEWLINE: byte := 10
  const BUFFER_LENGTH := 1024

  /** The position of the first newline from `pos` on, or the end of `s`. */
  function NextNewline(s: seq<byte>, pos: nat): (p: nat)
    requires pos <= |s|
    ensures pos <= p <= |s| && (p < |s| ==> s[p] == 10)
    ensures forall k :: pos <= k < p ==> s[k] != 10
    decreases |s| - pos
  {
    if pos == |s| || s[pos] == NEWLINE then pos else NextNewline(s, pos + 1)
  }

  function FirstNewline(s: seq<byte>): nat { NextNewline(s, 0) }

  lemma NextNewlineIs(s: seq<byte>, pos: nat, p: nat)
    requires pos <= p <= |s| && (forall k :: pos <= k < p ==> s[k] != 10) && (p < |s| ==> s[p] == 10)
    ensures NextNewline(s, pos) == p
  {}

  /** How many bytes the next peek for up to `n` of `available` bytes shows, if it does not
      fail; interruptions are retried. */
  function PeekSize(available: nat, n: nat, fates: seq<Fate>): (k: nat)
    ensures k <= Min(available, n) && (k == 0 ==> available == 0 || n == 0)
  {
    if fates == [] then Min(available, n)
    else if fates[0].Moves? then ReadSize(available, n, fates[0].most)
    else PeekSize(available, n, fates[1..])
  }

  function AfterPeek(fates: seq<Fate>): (r: seq<Fate>)
    ensures NoFailure(fates) ==> NoFailure(r)
  {
    if fates == [] then []
    else if fates[0].Moves? then fates[1..]
    else AfterPeek(fates[1..])
  }

  /** The next peek fails, when its interruptions are over. */
  predicate PeekFails(fates: seq<Fate>)
    ensures NoFailure(fates) ==> !PeekFails(fates)
  {
    fates != [] && (fates[0].Fails? || (fates[0].Interrupted? && PeekFails(fates[1..])))
  }

  /** A call of `readline`: what it returns, how many bytes it takes out of the stream, how far
      into its buffer it writes, and what is left of the script for its peeks. */
  datatype Call = Call(n: nat, taken: nat, shown: nat, fates: seq<Fate>)

  /** The loop of `readline` on a stream of `len` bytes with its first newline at `p`, with
      `pos` bytes taken and `left` bytes of buffer to go. */
  function Loop(len: nat, p: nat, pos: nat, left: nat, fates: seq<Fate>): Call
    requires pos <= p <= len
    decreases left
  {
    var k := PeekSize(len - pos, left, fates);
    if k == 0 then Call(0, pos, pos, AfterPeek(fates))
    else if p < pos + k then Call(p + 1, p + 1, pos + k, AfterPeek(fates))
    else Loop(len, p, pos + k, left - k, AfterPeek(fates))
  }

  function CallOf(s: seq<byte>, maxlen: nat, fates: seq<Fate>): Call {
    Loop(|s|, FirstNewline(s), 0, maxlen, fates)
  }

  /** Whatever sizes the peeks return, a line that fits is returned and taken exactly; otherwise
      the call returns 0, and what fits the buffer is taken. The buffer is written at least to
      the end of the line. */
  lemma {:induction false} LoopIs(len: nat, p: nat, pos: nat, left: nat, fates: seq<Fate>)
    requires pos <= p <= len
    ensures var c, most := Loop(len, p, pos, left, fates), Min(pos + left, len);
      && c.taken <= c.shown <= most
      && (if p < most then c.n == c.taken == p + 1 else c.n == 0 && c.taken == most)
      && (NoFailure(fates) ==> NoFailure(c.fates))
    decreases left
  {
    var k := PeekSize(len - pos, left, fates);
    if 0 < k <= p - pos {
      LoopIs(len, p, pos + k, left - k, AfterPeek(fates));
    }
  }

  /** recv_peek: retry while interrupted. */
  method RecvPeek(sock: Socket, buf: array<byte>, off: nat, n: nat) returns (ret: int)
    requires off + n <= buf.Length
    modifies sock`peekFates, buf
    ensures -1 <= ret <= Min(|sock.incoming|, n)
    ensures ret == -1 <==> PeekFails(old(sock.peekFates))
    ensures ret != -1 ==>
      && ret == PeekSize(|sock.incoming|, n, old(sock.peekFates))
      && sock.peekFates == AfterPeek(old(sock.peekFates))
      && Overlaid(buf[..], old(buf[..]), off, sock.incoming[..ret])
  {
    ghost var fates := sock.peekFates;
    while true
      invariant buf[..] == old(buf[..])
      invariant PeekSize(|sock.incoming|, n, sock.peekFates) == PeekSize(|sock.incoming|, n, fates)
      invariant AfterPeek(sock.peekFates) == AfterPeek(fates)
      invariant PeekFails(sock.peekFates) == PeekFails(fates)
      decreases |sock.peekFates|
    {
      var r, eintr := sock.Peek(buf, off, n);
      if r == -1 && eintr {
        continue;
      }
      return r;
    }
  }

  /** Where a call of `readline` begins: the buffer, the stream and the script for the peeks then,
      and what the call comes to. It has `room` bytes of buffer to go, and `base` bytes behind it; that
      is 0 but for a call out of step. */
  datatype Origin = Origin(before: seq<byte>, stream: seq<byte>, base: nat, room: nat, fates: seq<Fate>, call: Call)

  /** Of the stream the first `pos` bytes are taken and the first `shown` in the buffer. */
  ghost predicate Shown(sock: Socket, buf: array<byte>, o: Origin, pos: nat, shown: nat)
    reads sock, buf
  {
    && pos <= shown <= |o.stream|
    && sock.incoming == o.stream[pos..]
    && Overlaid(buf[..], o.before, o.base, o.stream[..shown])
  }

  /** The call has come to its end with result `n`. */
  ghost predicate ReadTo(sock: Socket, buf: array<byte>, o: Origin, n: nat)
    reads sock, buf
  {
    && n == (if o.call.n == 0 then 0 else o.base + o.call.n)
    && Shown(sock, buf, o, o.call.taken, o.call.shown) && sock.peekFates == o.call.fates
  }

  /** The scan of the bytes just peeked. */
  method FindNewline(buf: array<byte>, off: nat, n: nat) returns (i: nat)
    requires off + n <= buf.Length
    ensures i <= n && (i < n ==> buf[off + i] == 10)
    ensures forall k :: off <= k < off + i ==> buf[k] != 10
  {
    i := 0;
    while i < n
      invariant i <= n && forall k :: off <= k < off + i ==> buf[k] != NEWLINE
    {
      if buf[off + i] == NEWLINE {
        return;
      }
      i := i + 1;
    }
  }

  /** With the stream in the buffer the scan finds the stream's newline. */
  lemma ScanFinds(o: Origin, buf: seq<byte>, pos: nat, n: nat, i: nat)
    requires pos + n <= |o.stream| && Overlaid(buf, o.before, o.base, o.stream[..pos + n])
    requires i <= n && (i < n ==> buf[o.base + pos + i] == NEWLINE)
    requires forall k :: o.base + pos <= k < o.base + pos + i ==> buf[k] != NEWLINE
    requires pos <= FirstNewline(o.stream)
    ensures i == Min(FirstNewline(o.stream) - pos, n)
  {
    forall k | 0 <= k < pos + i ensures o.stream[k] != NEWLINE {
      assert k >= pos ==> buf[o.base + k] == o.stream[..pos + n][k];
    }
    if i < n {
      assert buf[o.base + (pos + i)] == o.stream[..pos + n][pos + i];
      NextNewlineIs(o.stream, 0, pos + i);
    }
  }

  /** Peeks behind the `at` bytes taken so far and looks for a newline. */
  method PeekChunk(sock: Socket, buf: array<byte>, pos: nat, n: nat, ghost o: Origin, ghost at: nat)
    returns (ret: int, i: nat)
    requires pos == o.base + at && pos + n <= buf.Length && Shown(sock, buf, o, at, at)
    requires at <= FirstNewline(o.stream)
    modifies sock`peekFates, buf
    ensures -1 <= ret <= Min(|sock.incoming|, n)
    ensures ret == -1 <==> PeekFails(old(sock.peekFates))
    ensures ret != -1 ==>
      && ret == PeekSize(|sock.incoming|, n, old(sock.peekFates))
      && sock.peekFates == AfterPeek(old(sock.peekFates))
      && Shown(sock, buf, o, at, at + ret)
      && i == Min(FirstNewline(o.stream) - at, ret)
  {
    ghost var mid := buf[..];
    ret := RecvPeek(sock, buf, pos, n);
    i := 0;
    if ret != -1 {
      OverlaidTwice(o.before, mid, buf[..], o.base, o.stream, at, ret);
      i := FindNewline(buf, pos, ret);
      ScanFinds(o, buf[..], at, ret, i);
    }
  }

  /** Takes `n` of the bytes just peeked out of the stream. */
  method TakeChunk(sock: Socket, buf: array<byte>, pos: nat, n: nat, ghost o: Origin, ghost at: nat, ghost shown: nat)
    returns (ret: int)
    requires pos == o.base + at && pos + n <= buf.Length && Shown(sock, buf, o, at, shown) && at + n <= shown
    modifies sock`incoming, sock`readFates, buf
    ensures Suffix(sock.incoming, old(sock.incoming))
    ensures NoFailure(old(sock.readFates)) ==> ret != -1 && NoFailure(sock.readFates)
    ensures ret == -1 || (ret == n && Shown(sock, buf, o, at + n, shown))
  {
    ghost var mid := buf[..];
    ret := sock.Readn(buf, pos, n);
    if ret != -1 {
      OverlaidAgain(o.before, mid, buf[..], o.base, o.stream, at, n, shown);
    }
  }

  datatype Result = Got(n: nat) | ProcessExit

  /** Whether the next round of the loop that comes to `c`, in which `k` bytes are shown, is the last. */
  ghost predicate LastRound(c: Call, p: nat, at: nat, k: nat, rest: seq<Fate>) {
    && (k == 0 ==> c == Call(0, at, at, rest))
    && (0 < k && p < at + k ==> c == Call(p + 1, p + 1, at + k, rest))
  }

  /** What the loop comes to from `at` on, with `left` bytes of buffer to go. */
  function Rest(s: seq<byte>, at: nat, left: nat, fates: seq<Fate>): Call {
    if at <= FirstNewline(s) then Loop(|s|, FirstNewline(s), at, left, fates) else Call(0, at, at, fates)
  }

  ghost predicate Comes(c: Call, s: seq<byte>, at: nat, left: nat, fates: seq<Fate>) {
    at <= FirstNewline(s) && c == Rest(s, at, left, fates)
  }

  lemma ComesOn(c: Call, s: seq<byte>, at: nat, left: nat, fates: seq<Fate>)
    requires Comes(c, s, at, left, fates)
    ensures var k, rest := PeekSize(|s| - at, left, fates), AfterPeek(fates);
      && LastRound(c, FirstNewline(s), at, k, rest)
      && (0 < k && at + k <= FirstNewline(s) ==> Comes(c, s, at + k, left - k, rest))
  {}

  /** Takes the rest of the line, the last `n` bytes of it. */
  method TakeLine(sock: Socket, buf: array<byte>, pos: nat, n: nat, ghost o: Origin, ghost at: nat) returns (r: Result)
    requires pos == o.base + at && pos + n <= buf.Length && 0 < n
    requires Shown(sock, buf, o, at, o.call.shown) && at + n == o.call.n == o.call.taken <= o.call.shown
    requires sock.peekFates == o.call.fates
    modifies sock`incoming, sock`readFates, buf
    ensures Suffix(sock.incoming, old(sock.incoming))
    ensures NoFailure(old(sock.readFates)) ==> r.Got? && NoFailure(sock.readFates)
    ensures r.Got? ==> ReadTo(sock, buf, o, r.n)
  {
    var ret := TakeChunk(sock, buf, pos, n, o, at, o.call.shown);
    r := if ret < n then ProcessExit else Got(pos + ret);
  }

  /** The body of the loop: either it ends with a result, or `ret` more bytes without newline are
      taken. An error of the read that should take these is ignored; then `inStep` is false. */
  method Round(sock: Socket, buf: array<byte>, pos: nat, nleft: nat,
      ghost o: Origin, ghost at: nat, ghost k: nat, ghost rest: seq<Fate>)
    returns (ret: int, end: Option<Result>, inStep: bool)
    requires pos == o.base + at && pos + nleft <= buf.Length && Shown(sock, buf, o, at, at)
    requires at <= FirstNewline(o.stream)
    requires k == PeekSize(|sock.incoming|, nleft, sock.peekFates) && rest == AfterPeek(sock.peekFates)
    requires LastRound(o.call, FirstNewline(o.stream), at, k, rest)
    modifies sock`incoming, sock`readFates, sock`peekFates, buf
    ensures Suffix(sock.incoming, old(sock.incoming))
    ensures NoFailure(old(sock.readFates)) && NoFailure(old(sock.peekFates)) ==>
      NoFailure(sock.readFates) && NoFailure(sock.peekFates) && inStep && (end.Some? ==> end.value.Got?)
    ensures end.Some? ==> inStep && (end.value.Got? ==> ReadTo(sock, buf, o, end.value.n))
    ensures end == Some(ProcessExit) ==> PeekFails(old(sock.peekFates)) || FirstNewline(o.stream) < at + k
    ensures PeekFails(old(sock.peekFates)) ==> end == Some(ProcessExit)
    ensures end.None? ==>
      && 0 < ret == k <= nleft && at + k <= FirstNewline(o.stream) && sock.peekFates == rest
      && (inStep ==> Shown(sock, buf, o, at + ret, at + ret))
  {
    inStep, end := true, Some(ProcessExit);
    var i;
    ret, i := PeekChunk(sock, buf, pos, nleft, o, at);
    if ret < 0 {
      return;
    }
    if ret == 0 {
      end := Some(Got(0));
    } else if i < ret {
      var r := TakeLine(sock, buf, pos, i + 1, o, at);
      end := Some(r);
    } else {
      var n := TakeChunk(sock, buf, pos, ret, o, at, at + ret);
      inStep, end := n != -1, None;
    }
  }

  /** The call that the origin says. */
  ghost predicate IsCall(o: Origin) { o.call == CallOf(o.stream, o.room, o.fates) }

  ghost predicate NoNewline(s: seq<byte>) {
    forall k :: 0 <= k < |s| ==> s[k] != 10
  }

  /** No peek fails and there is no line in the stream. */
  ghost predicate Quiet(fates: seq<Fate>, s: seq<byte>) { NoFailure(fates) && NoNewline(s) }

  /** A round of a call that comes to `o.call`. A quiet round does not end the program. */
  method RoundOn(sock: Socket, buf: array<byte>, pos: nat, nleft: nat, ghost o: Origin, ghost at: nat, ghost quiet: bool)
    returns (ret: int, end: Option<Result>, inStep: bool)
    requires quiet ==> NoFailure(sock.peekFates) && NoNewline(o.stream)
    requires pos == o.base + at && pos + nleft <= buf.Length && Shown(sock, buf, o, at, at)
    requires Comes(o.call, o.stream, at, nleft, sock.peekFates)
    modifies sock`incoming, sock`readFates, sock`peekFates, buf
    ensures Suffix(sock.incoming, old(sock.incoming))
    ensures NoFailure(old(sock.readFates)) && NoFailure(old(sock.peekFates)) ==>
      NoFailure(sock.readFates) && NoFailure(sock.peekFates) && inStep && (end.Some? ==> end.value.Got?)
    ensures end.Some? ==> inStep && (end.value.Got? ==> ReadTo(sock, buf, o, end.value.n))
    ensures end.None? ==> 0 < ret <= nleft && (quiet ==> NoFailure(sock.peekFates))
    ensures quiet ==> end != Some(ProcessExit)
    ensures end.None? && inStep ==>
      Shown(sock, buf, o, at + ret, at + ret) && Comes(o.call, o.stream, at + ret, nleft - ret, sock.peekFates)
  {
    ghost var k, rest := PeekSize(|o.stream| - at, nleft, sock.peekFates), AfterPeek(sock.peekFates);
    ComesOn(o.call, o.stream, at, nleft, sock.peekFates);
    ret, end, inStep := Round(sock, buf, pos, nleft, o, at, k, rest);
  }

  lemma StillSuffix(u: seq<byte>, t: seq<byte>, s: seq<byte>, n: nat)
    requires n <= |s| && t == s[n..] && Suffix(u, t)
    ensures Suffix(u, s)
  {
    SuffixAgain(u, t, s);
  }

  /** The loop as long as it is in step with the stream, in a buffer with `room` bytes from `base` on:
      to a result, or to an error of a read that is ignored, behind `n` bytes that count as taken. */
  method InStep(sock: Socket, buf: array<byte>, base: nat, room: nat, ghost o: Origin, ghost quiet: bool)
    returns (n: nat, end: Option<Result>)
    requires quiet ==> Quiet(sock.peekFates, o.stream)
    requires base == o.base && base + room <= buf.Length && Shown(sock, buf, o, 0, 0)
    requires Comes(o.call, o.stream, 0, room, sock.peekFates)
    modifies sock`incoming, sock`readFates, sock`peekFates, buf
    ensures Suffix(sock.incoming, old(sock.incoming))
    ensures NoFailure(old(sock.readFates)) && NoFailure(old(sock.peekFates)) ==>
      NoFailure(sock.readFates) && NoFailure(sock.peekFates) && end.Some? && end.value.Got?
    ensures end.Some? && end.value.Got? ==> ReadTo(sock, buf, o, end.value.n)
    ensures end.None? ==> 0 < n <= room
    ensures quiet ==> end != Some(ProcessExit) && (end.None? ==> NoFailure(sock.peekFates))
  {
    ghost var s, ok := sock.incoming, NoFailure(sock.readFates) && NoFailure(sock.peekFates);
    var nleft, pos := room, base;
    n := 0;
    while true
      invariant 0 <= nleft && pos == base + n && n + nleft == room
      invariant ok ==> NoFailure(sock.readFates) && NoFailure(sock.peekFates)
      invariant quiet ==> NoFailure(sock.peekFates)
      invariant Shown(sock, buf, o, n, n) && Comes(o.call, o.stream, n, nleft, sock.peekFates)
      decreases nleft
    {
      ghost var left := sock.incoming;
      var ret, last, inStep := RoundOn(sock, buf, pos, nleft, o, n, quiet);
      StillSuffix(sock.incoming, left, s, n);
      if last.Some? {
        return n, last;
      }
      nleft := nleft - ret;
      pos := pos + ret;
      n := n + ret;
      if !inStep {
        return n, None;
      }
      assert o.call == Rest(o.stream, n, nleft, sock.peekFates);
    }
  }

  /** A call that begins here and now, behind `base` bytes of the buffer. */
  lemma Begin(sock: Socket, buf: array<byte>, base: nat, room: nat) returns (o: Origin)
    requires base <= buf.Length
    ensures o.before == buf[..] && o.stream == sock.incoming && o.base == base && o.room == room && o.fates == sock.peekFates
    ensures IsCall(o) && Shown(sock, buf, o, 0, 0) && Comes(o.call, o.stream, 0, room, sock.peekFates)
  {
    o := Origin(buf[..], sock.incoming, base, room, sock.peekFates, CallOf(sock.incoming, room, sock.peekFates));
  }

  /** One line of at most `maxlen` bytes: its length, or 0 at the end of the stream and for a line
      that does not fit, whose bytes are then gone. The call is in step, with `base` 0, unless a read
      has really failed and that was ignored. Then `base` bytes of the buffer count, of which the
      stream may not have moved on, and the rest is a call on what is left of the stream. The program
      exits for an error of a peek, or of the read that takes the end of a line, but for no other. */
  method ReadLine(sock: Socket, buf: array<byte>, maxlen: nat) returns (r: Result, ghost o: Origin)
    requires maxlen <= buf.Length
    modifies sock`incoming, sock`readFates, sock`peekFates, buf
    ensures NoFailure(old(sock.readFates)) && NoFailure(old(sock.peekFates)) ==>
      r.Got? && o.base == 0 && NoFailure(sock.readFates) && NoFailure(sock.peekFates)
    ensures r.Got? ==> ReadTo(sock, buf, o, r.n)
    ensures IsCall(o) && o.base + o.room == maxlen && Suffix(o.stream, old(sock.incoming))
    ensures o.base == 0 ==> o.before == old(buf[..]) && o.stream == old(sock.incoming) && o.fates == old(sock.peekFates)
    ensures r == ProcessExit ==> !Quiet(o.fates, o.stream)
  {
    ghost var s := sock.incoming;
    var nleft, pos := maxlen, 0;
    while true
      invariant 0 <= nleft && pos + nleft == maxlen && Suffix(sock.incoming, s)
      invariant pos == 0 ==>
        buf[..] == old(buf[..]) && sock.incoming == s
        && sock.readFates == old(sock.readFates) && sock.peekFates == old(sock.peekFates)
      invariant pos > 0 ==> !NoFailure(old(sock.readFates)) || !NoFailure(old(sock.peekFates))
      decreases nleft
    {
      ghost var left := sock.incoming;
      o := Begin(sock, buf, pos, nleft);
      var n, end := InStep(sock, buf, pos, nleft, o, Quiet(o.fates, o.stream));
      SuffixAgain(sock.incoming, left, s);
      if end.Some? {
        return end.value, o;
      }
      nleft := nleft - n;
      pos := pos + n;
    }
  }

  // ----- Whole streams -----

  /** What repeated calls return until one returns 0. */
  function Lines(s: seq<byte>, maxlen: nat): seq<seq<byte>>
    decreases |s|
  {
    var p := FirstNewline(s);
    if p < Min(maxlen, |s|) then [s[..p + 1]] + Lines(s[p + 1..], maxlen) else []
  }

  ghost function Concat(ls: seq<seq<byte>>): seq<byte> {
    if ls == [] then [] else ls[0] + Concat(ls[1..])
  }

  predicate IsLine(l: seq<byte>) {
    l != [] && l[|l| - 1] == 10 && forall k :: 0 <= k < |l| - 1 ==> l[k] != 10
  }

  /** Lines sent one after the other come back one per call, in order. */
  lemma {:induction false} LinesComeBack(ls: seq<seq<byte>>, maxlen: nat)
    requires forall k :: 0 <= k < |ls| ==> IsLine(ls[k]) && |ls[k]| <= maxlen
    ensures Lines(Concat(ls), maxlen) == ls
    decreases |ls|
  {
    if ls != [] {
      var s, p := Concat(ls), |ls[0]| - 1;
      NextNewlineIs(s, 0, p);
      assert s[..p + 1] == ls[0];
      assert s[p + 1..] == Concat(ls[1..]);
      LinesComeBack(ls[1..], maxlen);
    }
  }

  ghost predicate NewlineWithin(s: seq<byte>, i: nat, n: nat) {
    exists k :: i <= k < i + n && k < |s| && s[k] == 10
  }

  /** Some newline among any `maxlen` consecutive bytes, and one at the very end. */
  ghost predicate WellLined(s: seq<byte>, maxlen: nat) {
    && (s != [] ==> s[|s| - 1] == 10)
    && (forall i: nat :: i + maxlen <= |s| ==> NewlineWithin(s, i, maxlen))
  }

  lemma NoLine(s: seq<byte>, maxlen: nat)
    requires maxlen > 0 && FirstNewline(s) >= Min(maxlen, |s|)
    ensures Lines(s, maxlen) == [] && (WellLined(s, maxlen) <==> s == [])
  {
    if |s| >= maxlen {
      assert !NewlineWithin(s, 0, maxlen);
    }
  }

  lemma JoinPrefix(a: seq<byte>, x: seq<byte>, y: seq<byte>)
    requires x <= y
    ensures a + x <= a + y && (a + x == a + y <==> x == y)
  {
    if a + x == a + y {
      assert |x| == |y|;
    }
  }

  /** The reader delivers every byte of a stream exactly when the stream is well lined. */
  lemma {:induction false} DeliversAll(s: seq<byte>, maxlen: nat)
    requires maxlen > 0
    ensures Concat(Lines(s, maxlen)) <= s
    ensures Concat(Lines(s, maxlen)) == s <==> WellLined(s, maxlen)
    decreases |s|
  {
    var p := FirstNewline(s);
    if p < Min(maxlen, |s|) {
      var line, rest := s[..p + 1], s[p + 1..];
      var more := Lines(rest, maxlen);
      DeliversAll(rest, maxlen);
      WellLinedRest(s, maxlen, p);
      assert Lines(s, maxlen) == [line] + more;
      ConcatFirst(line, more);
      assert s == line + rest;
      JoinPrefix(line, Concat(more), rest);
    } else {
      NoLine(s, maxlen);
    }
  }

  lemma ConcatFirst(l: seq<byte>, ls: seq<seq<byte>>)
    ensures Concat([l] + ls) == l + Concat(ls)
  {
    assert ([l] + ls)[1..] == ls;
  }

  lemma WellLinedRest(s: seq<byte>, maxlen: nat, p: nat)
    requires p == FirstNewline(s) < Min(maxlen, |s|)
    ensures WellLined(s, maxlen) <==> WellLined(s[p + 1..], maxlen)
  {
    var rest := s[p + 1..];
    forall i: nat ensures NewlineWithin(rest, i, maxlen) <==> NewlineWithin(s, i + p + 1, maxlen) {
      if NewlineWithin(rest, i, maxlen) {
        var k :| i <= k < i + maxlen && k < |rest| && rest[k] == NEWLINE;
        assert s[k + p + 1] == NEWLINE;
      }
      if NewlineWithin(s, i + p + 1, maxlen) {
        var k :| i + p + 1 <= k < i + p + 1 + maxlen && k < |s| && s[k] == NEWLINE;
        assert rest[k - p - 1] == NEWLINE;
      }
    }
    forall i: nat | i + maxlen <= |s| && i <= p ensures NewlineWithin(s, i, maxlen) {
      assert s[p] == NEWLINE;
    }
    if WellLined(rest, maxlen) {
      forall i: nat | i + maxlen <= |s| ensures NewlineWithin(s, i, maxlen) {
        if i > p {
          assert NewlineWithin(rest, i - p - 1, maxlen);
          assert i - p - 1 + p + 1 == i;
        }
      }
    }
  }

  // ----- What is printed -----

  /** What fputs prints of a cleared buffer after one call. */
  function Printed(s: seq<byte>, maxlen: nat, fates: seq<Fate>): Option<seq<byte>> {
    LoopIs(|s|, FirstNewline(s), 0, maxlen, fates);
    var shown := s[..CallOf(s, maxlen, fates).shown];
    if |shown| < maxlen then Some(CString(shown)) else FPuts(shown)
  }

  lemma {:induction false} CStringUpTo(s: seq<byte>, n: nat)
    requires n <= |s| && 0 !in s[..n]
    ensures s[..n] <= CString(s)
    ensures CString(s) == s[..n] <==> n == |s| || s[n] == 0
    decreases n
  {
    if n > 0 {
      assert s[0] == s[..n][0];
      assert s[1..][..n - 1] == s[..n][1..];
      CStringUpTo(s[1..], n - 1);
    }
  }

  /** The first line of `s` has no zero in it, leaves room for a terminator, and ends the stream
      or is followed by a zero. */
  predicate Alone(s: seq<byte>, maxlen: nat)
    requires FirstNewline(s) < |s|
  {
    var n := FirstNewline(s) + 1;
    n < maxlen && 0 !in s[..n] && (n == |s| || s[n] == 0)
  }

  lemma ShownText(s: seq<byte>, maxlen: nat, fates: seq<Fate>, n: nat)
    requires n <= CallOf(s, maxlen, fates).shown <= Min(maxlen, |s|) && 0 !in s[..n]
    ensures var e := CallOf(s, maxlen, fates).shown;
      Printed(s, maxlen, fates) == Some(s[..n]) <==> if n == e then n < maxlen else s[n] == 0
  {
    var e := CallOf(s, maxlen, fates).shown;
    assert s[..e][..n] == s[..n];
    CStringUpTo(s[..e], n);
    if n < e && s[n] == 0 {
      assert s[..e][n] == 0;
    }
  }

  /** A text with a zero in it is never what is printed. */
  lemma ZeroNotPrinted(s: seq<byte>, maxlen: nat, fates: seq<Fate>, l: seq<byte>)
    requires 0 in l
    ensures Printed(s, maxlen, fates) != Some(l)
  {}

  lemma ShowsAll(s: seq<byte>, maxlen: nat)
    ensures FirstNewline(s) < Min(maxlen, |s|) ==> CallOf(s, maxlen, []).shown == Min(maxlen, |s|)
  {}

  /** The program prints the buffer up to its first zero, not the line it was told of. However
      the peeks fall, that is just the line, exactly when the line stands alone. */
  lemma PrintsJustTheLine(s: seq<byte>, maxlen: nat)
    requires FirstNewline(s) < Min(maxlen, |s|)
    ensures (forall fates :: NoFailure(fates) ==> Printed(s, maxlen, fates) == Some(s[..FirstNewline(s) + 1]))
      <==> Alone(s, maxlen)
  {
    var n := FirstNewline(s) + 1;
    if Alone(s, maxlen) {
      forall fates | NoFailure(fates) ensures Printed(s, maxlen, fates) == Some(s[..n]) {
        LoopIs(|s|, FirstNewline(s), 0, maxlen, fates);
        ShownText(s, maxlen, fates, n);
      }
    } else if 0 in s[..n] {
      ZeroNotPrinted(s, maxlen, [], s[..n]);
      assert NoFailure([]);
    } else {
      ShowsAll(s, maxlen);
      ShownText(s, maxlen, [], n);
      assert NoFailure([]);
    }
  }

  /** `k` peeks of a byte each. */
  function Ones(k: nat): seq<Fate> { seq(k, _ => Moves(1)) }

  /** Peeked byte by byte, a line is all that is shown. */
  lemma {:induction false} ByteByByte(len: nat, p: nat, pos: nat, left: nat, k: nat)
    requires pos <= p < Min(pos + left, len) && k > p - pos
    ensures Loop(len, p, pos, left, Ones(k)) == Call(p + 1, p + 1, p + 1, Ones(k - (p + 1 - pos)))
    decreases p - pos
  {
    assert Ones(k)[1..] == Ones(k - 1);
    assert PeekSize(len - pos, left, Ones(k)) == 1;
    if pos < p {
      ByteByByte(len, p, pos + 1, left - 1, k - 1);
    }
  }

  /** When fputs reads past the buffer: after some call on the stream exactly when the stream fills
      the buffer without a zero, and after every call exactly when its first line does so by itself. */
  lemma ReadsPastBuffer(s: seq<byte>, maxlen: nat)
    requires FirstNewline(s) < Min(maxlen, |s|)
    ensures (exists fates :: NoFailure(fates) && Printed(s, maxlen, fates) == None) <==> |s| >= maxlen && 0 !in s[..maxlen]
    ensures (forall fates :: NoFailure(fates) ==> Printed(s, maxlen, fates) == None)
      <==> FirstNewline(s) + 1 == maxlen && 0 !in s[..maxlen]
  {
    var p := FirstNewline(s);
    forall fates | NoFailure(fates) && Printed(s, maxlen, fates) == None ensures |s| >= maxlen && 0 !in s[..maxlen] {
      LoopIs(|s|, p, 0, maxlen, fates);
    }
    if |s| >= maxlen && 0 !in s[..maxlen] {
      ShowsAll(s, maxlen);
      assert NoFailure([]) && Printed(s, maxlen, []) == None;
    }
    if p + 1 == maxlen && 0 !in s[..maxlen] {
      forall fates | NoFailure(fates) ensures Printed(s, maxlen, fates) == None {
        LoopIs(|s|, p, 0, maxlen, fates);
      }
    } else {
      ByteByByte(|s|, p, 0, maxlen, p + 1);
      assert NoFailure(Ones(p + 1)) && Printed(s, maxlen, Ones(p + 1)).Some?;
    }
  }

  /** A line of just the length of the buffer: whatever the peeks return, fputs reads past it. */
  lemma FullBuffer(line: seq<byte>, rest: seq<byte>, fates: seq<Fate>)
    requires IsLine(line) && |line| == 1024 && 0 !in line && NoFailure(fates)
    ensures CallOf(line + rest, BUFFER_LENGTH, fates).n == 1024
    ensures Printed(line + rest, BUFFER_LENGTH, fates) == None
  {
    var s := line + rest;
    NextNewlineIs(s, 0, BUFFER_LENGTH - 1);
    LoopIs(|s|, BUFFER_LENGTH - 1, 0, BUFFER_LENGTH, fates);
    assert s[..BUFFER_LENGTH] == line;
  }

  // ----- What is printed of a whole stream -----

  /** What repeated calls print until one returns 0. C leaves the program's conduct undefined after
      a print without result; here it goes on with the next line. */
  function Prints(s: seq<byte>, maxlen: nat, fates: seq<Fate>): (r: seq<Option<seq<byte>>>)
    decreases |s|
  {
    LoopIs(|s|, FirstNewline(s), 0, maxlen, fates);
    var c := CallOf(s, maxlen, fates);
    if c.n == 0 then [] else [Printed(s, maxlen, fates)] + Prints(s[c.n..], maxlen, c.fates)
  }

  function Somes(ls: seq<seq<byte>>): seq<Option<seq<byte>>> {
    seq(|ls|, k requires 0 <= k < |ls| => Some(ls[k]))
  }

  /** The first line, the first print and the others. */
  lemma PrintsFirst(s: seq<byte>, maxlen: nat, fates: seq<Fate>)
    ensures FirstNewline(s) >= Min(maxlen, |s|) ==> Lines(s, maxlen) == [] && Prints(s, maxlen, fates) == []
    ensures FirstNewline(s) < Min(maxlen, |s|) ==>
      var n, c := FirstNewline(s) + 1, CallOf(s, maxlen, fates);
      && Lines(s, maxlen) == [s[..n]] + Lines(s[n..], maxlen)
      && Prints(s, maxlen, fates) == [Printed(s, maxlen, fates)] + Prints(s[n..], maxlen, c.fates)
  {
    LoopIs(|s|, FirstNewline(s), 0, maxlen, fates);
  }

  /** In terms of the call alone. */
  lemma CallPrints(s: seq<byte>, maxlen: nat, fates: seq<Fate>)
    ensures var c := CallOf(s, maxlen, fates);
      && c.n <= |s| && (NoFailure(fates) ==> NoFailure(c.fates))
      && Lines(s, maxlen) == (if c.n == 0 then [] else [s[..c.n]] + Lines(s[c.n..], maxlen))
      && Prints(s, maxlen, fates) ==
           (if c.n == 0 then [] else [Printed(s, maxlen, fates)] + Prints(s[c.n..], maxlen, c.fates))
  {
    LoopIs(|s|, FirstNewline(s), 0, maxlen, fates);
    PrintsFirst(s, maxlen, fates);
  }

  lemma SomesFirst(l: seq<byte>, ls: seq<seq<byte>>, x: Option<seq<byte>>, xs: seq<Option<seq<byte>>>)
    ensures [x] + xs == Somes([l] + ls) <==> x == Some(l) && xs == Somes(ls)
  {
    assert Somes([l] + ls) == [Some(l)] + Somes(ls);
    if [x] + xs == [Some(l)] + Somes(ls) {
      assert xs == ([x] + xs)[1..];
      assert Somes(ls) == ([Some(l)] + Somes(ls))[1..];
      assert x == ([x] + xs)[0];
    }
  }

  ghost predicate PrintsLines(s: seq<byte>, maxlen: nat, fates: seq<Fate>) {
    Prints(s, maxlen, fates) == Somes(Lines(s, maxlen))
  }

  lemma PrintsLinesFirst(s: seq<byte>, maxlen: nat, fates: seq<Fate>)
    requires FirstNewline(s) < Min(maxlen, |s|)
    ensures var n, c := FirstNewline(s) + 1, CallOf(s, maxlen, fates);
      PrintsLines(s, maxlen, fates)
      <==> Printed(s, maxlen, fates) == Some(s[..n]) && PrintsLines(s[n..], maxlen, c.fates)
  {
    var n, c := FirstNewline(s) + 1, CallOf(s, maxlen, fates);
    PrintsFirst(s, maxlen, fates);
    SomesFirst(s[..n], Lines(s[n..], maxlen), Printed(s, maxlen, fates), Prints(s[n..], maxlen, c.fates));
  }

  /** The program prints the lines it receives, however the peeks fall, exactly when there are none,
      or only one and it stands alone: a second line can always be shown, and printed, with the
      first. */
  lemma PrintsEveryLine(s: seq<byte>, maxlen: nat)
    ensures (forall fates :: NoFailure(fates) ==> PrintsLines(s, maxlen, fates))
      <==> Lines(s, maxlen) == [] || (|Lines(s, maxlen)| == 1 && Alone(s, maxlen))
  {
    var n := FirstNewline(s) + 1;
    if n > Min(maxlen, |s|) {
      forall fates | NoFailure(fates) ensures PrintsLines(s, maxlen, fates) {
        PrintsFirst(s, maxlen, fates);
      }
      PrintsFirst(s, maxlen, []);
    } else {
      PrintsFirst(s, maxlen, []);
      PrintsJustTheLine(s, maxlen);
      var rest := s[n..];
      if !Alone(s, maxlen) {
        var fates :| NoFailure(fates) && Printed(s, maxlen, fates) != Some(s[..n]);
        PrintsLinesFirst(s, maxlen, fates);
      } else if Lines(rest, maxlen) == [] {
        forall fates | NoFailure(fates) ensures PrintsLines(s, maxlen, fates) {
          PrintsLinesFirst(s, maxlen, fates);
          PrintsFirst(rest, maxlen, CallOf(s, maxlen, fates).fates);
        }
      } else {
        // the second line starts with the zero behind the first
        var later := CallOf(s, maxlen, []).fates;
        PrintsFirst(rest, maxlen, later);
        var m := FirstNewline(rest) + 1;
        assert rest[..m][0] == 0;
        ZeroNotPrinted(rest, maxlen, later, rest[..m]);
        PrintsLinesFirst(rest, maxlen, later);
        PrintsLinesFirst(s, maxlen, []);
        assert NoFailure([]) && !PrintsLines(s, maxlen, []);
      }
    }
  }

  /** No line has a zero in it or fills the buffer. */
  ghost predicate Printable(ls: seq<seq<byte>>, maxlen: nat) {
    forall k :: 0 <= k < |ls| ==> 0 !in ls[k] && |ls[k]| < maxlen
  }

  lemma PrintableFirst(l: seq<byte>, ls: seq<seq<byte>>, maxlen: nat)
    ensures Printable([l] + ls, maxlen) <==> 0 !in l && |l| < maxlen && Printable(ls, maxlen)
  {
    forall k | 0 <= k < |ls| ensures ([l] + ls)[k + 1] == ls[k] {}
    if Printable([l] + ls, maxlen) {
      assert ([l] + ls)[0] == l;
    }
  }

  lemma {:induction false} PrintedLinesArePrintable(s: seq<byte>, maxlen: nat, fates: seq<Fate>)
    requires PrintsLines(s, maxlen, fates)
    ensures Printable(Lines(s, maxlen), maxlen)
    decreases |s|
  {
    PrintsFirst(s, maxlen, fates);
    var n := FirstNewline(s) + 1;
    if n <= Min(maxlen, |s|) {
      PrintsLinesFirst(s, maxlen, fates);
      LoopIs(|s|, n - 1, 0, maxlen, fates);
      ShownText(s, maxlen, fates, n);
      PrintedLinesArePrintable(s[n..], maxlen, CallOf(s, maxlen, fates).fates);
      PrintableFirst(s[..n], Lines(s[n..], maxlen), maxlen);
    }
  }

  lemma {:induction false} ByteByBytePrints(s: seq<byte>, maxlen: nat, k: nat)
    requires Printable(Lines(s, maxlen), maxlen) && k >= |s|
    ensures PrintsLines(s, maxlen, Ones(k))
    decreases |s|
  {
    PrintsFirst(s, maxlen, Ones(k));
    var n := FirstNewline(s) + 1;
    if n <= Min(maxlen, |s|) {
      PrintableFirst(s[..n], Lines(s[n..], maxlen), maxlen);
      ByteByByte(|s|, n - 1, 0, maxlen, k);
      ShownText(s, maxlen, Ones(k), n);
      ByteByBytePrints(s[n..], maxlen, k - n);
      PrintsLinesFirst(s, maxlen, Ones(k));
    }
  }

  /** For some sizes of the peeks the program prints just the lines, exactly when no line has a zero
      in it or fills the buffer. */
  lemma CanPrintEveryLine(s: seq<byte>, maxlen: nat)
    ensures (exists fates :: NoFailure(fates) && PrintsLines(s, maxlen, fates)) <==> Printable(Lines(s, maxlen), maxlen)
  {
    if fates :| NoFailure(fates) && PrintsLines(s, maxlen, fates) {
      PrintedLinesArePrintable(s, maxlen, fates);
    }
    if Printable(Lines(s, maxlen), maxlen) {
      ByteByBytePrints(s, maxlen, |s|);
      assert NoFailure(Ones(|s|));
    }
  }

  // ----- The programs -----

  /** One call of `readline` into a cleared buffer, and what is printed of it. */
  method ReceiveLine(sock: Socket)
    returns (r: Result, line: seq<byte>, text: Option<seq<byte>>, ghost inStep: bool, ghost c: Call)
    modifies sock`incoming, sock`readFates, sock`peekFates
    ensures NoFailure(old(sock.readFates)) && NoFailure(old(sock.peekFates)) ==>
      r.Got? && inStep && NoFailure(sock.readFates) && NoFailure(sock.peekFates)
    ensures r.Got? && r.n > 0 ==> |sock.incoming| < |old(sock.incoming)|
    ensures inStep ==> c == CallOf(old(sock.incoming), BUFFER_LENGTH, old(sock.peekFates))
    ensures r.Got? && inStep ==> r.n == c.n == |line| <= |old(sock.incoming)|
    ensures r.Got? && inStep && r.n > 0 ==>
      && line == old(sock.incoming)[..r.n] && sock.incoming == old(sock.incoming)[r.n..] && sock.peekFates == c.fates
      && text == Printed(old(sock.incoming), BUFFER_LENGTH, old(sock.peekFates))
  {
    var buf := new byte[BUFFER_LENGTH](_ => 0);
    ghost var o;
    r, o := ReadLine(sock, buf, BUFFER_LENGTH);
    line, text, inStep, c := [], FPuts(buf[..]), o.base == 0, o.call;
    if r.Got? {
      CallTakes(o);
      line := buf[..r.n];
      if inStep {
        PrintedIs(buf[..], o);
      }
    }
  }

  /** A call with a result takes that many bytes, and fits the buffer. */
  lemma CallTakes(o: Origin)
    requires IsCall(o)
    ensures var c := o.call;
      && c.n <= c.taken <= c.shown <= Min(o.room, |o.stream|) && (c.n > 0 ==> c.taken == c.n)
  {
    LoopIs(|o.stream|, FirstNewline(o.stream), 0, o.room, o.fates);
  }

  /** The buffer after a call in step: the line, and what is printed. */
  lemma PrintedIs(buf: seq<byte>, o: Origin)
    requires IsCall(o) && o.base == 0 && |buf| == o.room && o.call.n <= o.call.shown <= |o.stream|
    requires Overlaid(buf, o.before, 0, o.stream[..o.call.shown]) && forall k :: 0 <= k < |o.before| ==> o.before[k] == 0
    ensures buf[..o.call.n] == o.stream[..o.call.n]
    ensures FPuts(buf) == Printed(o.stream, o.room, o.fates)
  {
    var e := o.call.shown;
    forall k | 0 <= k < e ensures buf[k] == o.stream[k] {
      assert buf[0 + k] == o.stream[..e][k];
    }
    assert buf[..e] == o.stream[..e];
    FPutsPadded(buf, e);
  }

  lemma JoinLater<T>(a: seq<T>, x: T, b: seq<T>)
    ensures a + ([x] + b) == (a + [x]) + b
  {}

  /** The receiving loop: a line per call into a buffer cleared before each. */
  method ReceiveLines(sock: Socket) returns (lines: seq<seq<byte>>, printed: seq<Option<seq<byte>>>)
    modifies sock`incoming, sock`readFates, sock`peekFates
    ensures |printed| == |lines|
    ensures NoFailure(old(sock.readFates)) && NoFailure(old(sock.peekFates)) ==>
      && lines == Lines(old(sock.incoming), BUFFER_LENGTH)
      && printed == Prints(old(sock.incoming), BUFFER_LENGTH, old(sock.peekFates))
  {
    lines, printed := [], [];
    ghost var ok := NoFailure(sock.readFates) && NoFailure(sock.peekFates);
    ghost var all, texts := Lines(sock.incoming, BUFFER_LENGTH), Prints(sock.incoming, BUFFER_LENGTH, sock.peekFates);
    ghost var moreLines, moreTexts := all, texts;
    while true
      invariant |printed| == |lines|
      invariant ok ==> NoFailure(sock.readFates) && NoFailure(sock.peekFates)
      invariant moreLines == Lines(sock.incoming, BUFFER_LENGTH)
      invariant moreTexts == Prints(sock.incoming, BUFFER_LENGTH, sock.peekFates)
      invariant ok ==> all == lines + moreLines && texts == printed + moreTexts
      decreases |sock.incoming|
    {
      CallPrints(sock.incoming, BUFFER_LENGTH, sock.peekFates);
      var r, line, text, inStep, c := ReceiveLine(sock);
      if !r.Got? || r.n == 0 {
        assert ok ==> moreLines == [] && moreTexts == [];
        return;
      }
      assert ok ==> moreLines == [line] + Lines(sock.incoming, BUFFER_LENGTH);
      assert ok ==> moreTexts == [text] + Prints(sock.incoming, BUFFER_LENGTH, sock.peekFates);
      moreLines, moreTexts := Lines(sock.incoming, BUFFER_LENGTH), Prints(sock.incoming, BUFFER_LENGTH, sock.peekFates);
      JoinLater(lines, line, moreLines);
      JoinLater(printed, text, moreTexts);
      lines, printed := lines + [line], printed + [text];
    }
  }

  lemma {:induction false} ConcatAppend(ls: seq<seq<byte>>, l: seq<byte>)
    ensures Concat(ls + [l]) == Concat(ls) + l
    decreases |ls|
  {
    if ls == [] {
      assert [l][1..] == [];
      assert Concat([l]) == l + Concat([]);
    } else {
      ConcatAppend(ls[1..], l);
      assert (ls + [l])[1..] == ls[1..] + [l];
    }
  }

  lemma SentNext(lines: seq<seq<byte>>, k: nat)
    requires k < |lines|
    ensures Concat(CStrings(lines[..k + 1])) == Concat(CStrings(lines[..k])) + CString(lines[k])
  {
    assert CStrings(lines[..k + 1]) == CStrings(lines[..k]) + [CString(lines[k])];
    ConcatAppend(CStrings(lines[..k]), CString(lines[k]));
  }

  /** The sending loop: a line at a time, as fgets stores it; strlen stops at a zero byte. */
  method SendLines(sock: Socket, lines: seq<seq<byte>>)
    modifies sock`outgoing, sock`writeFates
    ensures NoFailure(old(sock.writeFates)) ==> sock.outgoing == old(sock.outgoing) + Concat(CStrings(lines))
  {
    ghost var ok, before := NoFailure(sock.writeFates), sock.outgoing;
    var k := 0;
    while k < |lines|
      invariant k <= |lines|
      invariant ok ==> NoFailure(sock.writeFates) && sock.outgoing == before + Concat(CStrings(lines[..k]))
    {
      ghost var sent := Concat(CStrings(lines[..k]));
      var text := CString(lines[k]);
      var n := sock.Writen(text);
      if ok {
        assert text[..n] == text;
        assert before + sent + text == before + (sent + text);
        SentNext(lines, k);
      }
      k := k + 1;
    }
    assert lines[..|lines|] == lines;
  }

  lemma LinesIntact(lines: seq<seq<byte>>)
    requires forall k :: 0 <= k < |lines| ==> IsLine(lines[k]) && |lines[k]| <= 1024 && 0 !in lines[k]
    ensures Lines(Concat(CStrings(lines)), BUFFER_LENGTH) == lines
  {
    assert CStrings(lines) == lines;
    LinesComeBack(lines, BUFFER_LENGTH);
  }

  /** What comes out of the other program depends on the bytes alone, whatever becomes of the
      system calls in between; lines that fit the buffer come out one per call, in order. */
  method Transfer(lines: seq<seq<byte>>, writeFates: seq<Fate>, readFates: seq<Fate>, peekFates: seq<Fate>)
    returns (received: seq<seq<byte>>, printed: seq<Option<seq<byte>>>)
    requires NoFailure(writeFates) && NoFailure(readFates) && NoFailure(peekFates)
    ensures received == Lines(Concat(CStrings(lines)), BUFFER_LENGTH)
    ensures printed == Prints(Concat(CStrings(lines)), BUFFER_LENGTH, peekFates)
    ensures (forall k :: 0 <= k < |lines| ==> IsLine(lines[k]) && |lines[k]| <= 1024 && 0 !in lines[k]) ==>
      received == lines
  {
    var sender := new Socket([], [], [], writeFates);
    SendLines(sender, lines);
    var receiver := new Socket(sender.outgoing, readFates, peekFates, []);
    assert receiver.incoming == Concat(CStrings(lines));
    received, printed := ReceiveLines(receiver);
    if forall k :: 0 <= k < |lines| ==> IsLine(lines[k]) && |lines[k]| <= 1024 && 0 !in lines[k] {
      LinesIntact(lines);
    }
  }
}
