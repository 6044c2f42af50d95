// Length-prefixed framing: a four-byte big-endian length, then that many bytes.

module Framing {
  import opened Bytes
  import opened Machines
  import opened Sockets

  const BUFFER_LENGTH := 1024

  // ----- The wire format -----

  /** htonl. */
  function BigEndian(n: nat): (b: seq<byte>)
    requires n < 0x1_0000_0000
    ensures |b| == 4
  {
    var hi, lo := n / 0x1_0000, n % 0x1_0000;
    [hi / 0x100, hi % 0x100, lo / 0x100, lo % 0x100]
  }

  /** ntohl. */
  function FromBigEndian(b: seq<byte>): (n: nat)
    requires |b| == 4
    ensures n < 0x1_0000_0000
  {
    (b[0] as int * 0x100 + b[1] as int) * 0x1_0000 + (b[2] as int * 0x100 + b[3] as int)
  }

  /** ntohl undoes htonl. */
  lemma LengthReadsBack(n: nat)
    requires n < 0x1_0000_0000
    ensures FromBigEndian(BigEndian(n)) == n
  {}

  /** And htonl undoes ntohl. */
  lemma LengthWritesBack(b: seq<byte>)
    requires |b| == 4
    ensures BigEndian(FromBigEndian(b)) == b
  {
    var hi, lo := b[0] as int * 0x100 + b[1] as int, b[2] as int * 0x100 + b[3] as int;
    assert FromBigEndian(b) / 0x1_0000 == hi && FromBigEndian(b) % 0x1_0000 == lo;
    assert hi / 0x100 == b[0] as int && lo / 0x100 == b[2] as int;
  }

  /** The header carries the length byte by byte, the highest byte first. */
  lemma HeaderBytes(n: nat)
    requires n < 0x1_0000_0000
    ensures BigEndian(n)[0] == n / 0x100_0000 && BigEndian(n)[1] == n / 0x1_0000 % 0x100
    ensures BigEndian(n)[2] == n / 0x100 % 0x100 && BigEndian(n)[3] == n % 0x100
  {
    var hi, lo := n / 0x1_0000, n % 0x1_0000;
    assert n == hi * 0x1_0000 + lo;
    assert hi / 0x100 == n / 0x100_0000;
    assert n / 0x100 == hi * 0x100 + lo / 0x100;
  }

  /** And is read so. */
  lemma HeaderValue(b: seq<byte>)
    requires |b| == 4
    ensures FromBigEndian(b) == b[0] as int * 0x100_0000 + b[1] as int * 0x1_0000 + b[2] as int * 0x100 + b[3] as int
  {}

  /** The value of the field `len`, an int of 32 bits: from 0x8000_0000 on lengths are negative. */
  function LengthOf(header: seq<byte>): (len: int)
    requires |header| == 4
  {
    var n := FromBigEndian(header);
    if n < 0x8000_0000 then n else n - 0x1_0000_0000
  }

  /** A body that fits the packet buffer with a terminator: shorter than the buffer, or with a zero
      in it. */
  predicate IsBody(m: seq<byte>) {
    |m| <= 1024 && (|m| == 1024 ==> 0 in m)
  }

  ghost predicate AllBodies(ms: seq<seq<byte>>) {
    forall k :: 0 <= k < |ms| ==> IsBody(ms[k])
  }

  /** A C string that fits the packet buffer with its terminator. */
  ghost predicate IsMessage(m: seq<byte>) {
    |m| < 1024 && 0 !in m
  }

  ghost predicate AllMessages(ms: seq<seq<byte>>) {
    forall k :: 0 <= k < |ms| ==> IsMessage(ms[k])
  }

  function Frame(m: seq<byte>): (f: seq<byte>)
    requires |m| <= BUFFER_LENGTH
    ensures |f| == 4 + |m| && f[..4] == BigEndian(|m|) && f[4..] == m
  {
    BigEndian(|m|) + m
  }

  ghost function Encode(ms: seq<seq<byte>>): seq<byte>
    requires forall k :: 0 <= k < |ms| ==> |ms[k]| <= BUFFER_LENGTH
  {
    if ms == [] then [] else Frame(ms[0]) + Encode(ms[1..])
  }

  // ----- The receiver -----

  /** How the receiver ends: the peer closed between frames, the stream broke off inside one,
      or it was led past the end of its buffer, by reading a body beyond it or by printing text
      that fills it without a terminator. */
  datatype Ending = Closed | Failed | Overrun

  datatype Reception = Reception(printed: seq<seq<byte>>, ending: Ending)

  /** What the receiver prints, and how it ends, as a function of the bytes alone. A negative length
      becomes a count that read refuses. */
  function Receive(s: seq<byte>): Reception
    decreases |s|
  {
    if s == [] then Reception([], Closed)
    else if |s| < 4 then Reception([], Failed)
    else
      var len := LengthOf(s[..4]);
      if len < 0 then Reception([], Failed)
      else if len > BUFFER_LENGTH && |s| - 4 > BUFFER_LENGTH then Reception([], Overrun)
      else if |s| - 4 < len then Reception([], Failed)
      else if len == BUFFER_LENGTH && 0 !in s[4..4 + len] then Reception([], Overrun)
      else
        var rest := Receive(s[4 + len..]);
        Reception([CString(s[4..4 + len])] + rest.printed, rest.ending)
  }

  /** The number of whole frames among the first `p` bytes. */
  ghost function WholeFrames(ms: seq<seq<byte>>, p: nat): (k: nat)
    requires AllMessages(ms)
    ensures k <= |ms|
  {
    if ms == [] || p < |Frame(ms[0])| then 0 else 1 + WholeFrames(ms[1..], p - |Frame(ms[0])|)
  }

  /** `WholeFrames` is the largest number of frames that fit into `p` bytes. */
  lemma {:induction false} WholeFramesFit(ms: seq<seq<byte>>, p: nat)
    requires AllMessages(ms)
    ensures var k := WholeFrames(ms, p);
      && |Encode(ms[..k])| <= p
      && (k < |ms| ==> p < |Encode(ms[..k + 1])|)
    decreases |ms|
  {
    var k := WholeFrames(ms, p);
    assert Encode([]) == [];
    if k == 0 {
      assert ms[..0] == [];
      if ms != [] {
        assert ms[..1][1..] == [];
      }
    } else {
      WholeFramesFit(ms[1..], p - |Frame(ms[0])|);
      assert ms[..k][1..] == ms[1..][..k - 1];
      if k < |ms| {
        assert ms[..k + 1][1..] == ms[1..][..k];
      }
    }
  }

  /** The first packet of a stream. */
  lemma ReceiveFrame(m: seq<byte>, rest: seq<byte>)
    requires IsBody(m)
    ensures Receive(Frame(m) + rest) == Reception([CString(m)] + Receive(rest).printed, Receive(rest).ending)
  {
    var s := Frame(m) + rest;
    LengthReadsBack(|m|);
    assert s[..4] == BigEndian(|m|);
    assert s[4..4 + |m|] == m;
    assert s[4 + |m|..] == rest;
  }

  lemma ReceiveMessage(m: seq<byte>, rest: seq<byte>)
    requires IsMessage(m)
    ensures Receive(Frame(m) + rest) == Reception([m] + Receive(rest).printed, Receive(rest).ending)
  {
    ReceiveFrame(m, rest);
    assert CString(m) == m;
  }

  /** A frame that breaks off. */
  lemma ReceiveBroken(m: seq<byte>, p: nat)
    requires IsMessage(m) && 0 < p < |Frame(m)|
    ensures Receive(Frame(m)[..p]) == Reception([], Failed)
  {
    if p >= 4 {
      LengthReadsBack(|m|);
      assert Frame(m)[..p][..4] == BigEndian(|m|);
    }
  }

  lemma EncodeTake(ms: seq<seq<byte>>, k: nat)
    requires AllMessages(ms) && 0 < k <= |ms|
    ensures ms[..k] == [ms[0]] + ms[1..][..k - 1]
    ensures Encode(ms[..k]) == Frame(ms[0]) + Encode(ms[1..][..k - 1])
  {
    assert ms[..k][1..] == ms[1..][..k - 1];
  }

  lemma TakeJoin(a: seq<byte>, b: seq<byte>, p: nat)
    requires p <= |a| + |b|
    ensures (a + b)[..p] == if p < |a| then a[..p] else a + b[..p - |a|]
  {}

  /** Of the first `p` bytes of an encoded stream the receiver prints the whole messages, and it
      ends with a clean close exactly when they end between frames. */
  ghost predicate ReadsPrefix(ms: seq<seq<byte>>, p: nat)
    requires AllMessages(ms) && p <= |Encode(ms)|
  {
    var k, r := WholeFrames(ms, p), Receive(Encode(ms)[..p]);
    r.printed == ms[..k] && r.ending == if p == |Encode(ms[..k])| then Closed else Failed
  }

  lemma NoWholeFrame(ms: seq<seq<byte>>, p: nat)
    requires AllMessages(ms) && p <= |Encode(ms)| && (ms == [] || p < |Frame(ms[0])|)
    ensures ReadsPrefix(ms, p)
  {
    assert ms[..0] == [];
    if p > 0 {
      TakeJoin(Frame(ms[0]), Encode(ms[1..]), p);
      ReceiveBroken(ms[0], p);
    } else {
      assert Encode(ms)[..p] == [];
    }
  }

  lemma PrefixSplit(ms: seq<seq<byte>>, p: nat)
    requires AllMessages(ms) && |ms| > 0 && |Frame(ms[0])| <= p <= |Encode(ms)|
    ensures p - |Frame(ms[0])| <= |Encode(ms[1..])|
    ensures var q := p - |Frame(ms[0])|;
      && WholeFrames(ms, p) == WholeFrames(ms[1..], q) + 1
      && Encode(ms)[..p] == Frame(ms[0]) + Encode(ms[1..])[..q]
  {
    TakeJoin(Frame(ms[0]), Encode(ms[1..]), p);
  }

  lemma ReceivePrefix(ms: seq<seq<byte>>, p: nat)
    requires AllMessages(ms) && |ms| > 0 && |Frame(ms[0])| <= p <= |Encode(ms)|
    ensures p - |Frame(ms[0])| <= |Encode(ms[1..])|
    ensures var r := Receive(Encode(ms[1..])[..p - |Frame(ms[0])|]);
      Receive(Encode(ms)[..p]) == Reception([ms[0]] + r.printed, r.ending)
  {
    PrefixSplit(ms, p);
    ReceiveMessage(ms[0], Encode(ms[1..])[..p - |Frame(ms[0])|]);
  }

  lemma TakeOneMore(ms: seq<seq<byte>>, k: nat)
    requires AllMessages(ms) && k < |ms|
    ensures ms[..k + 1] == [ms[0]] + ms[1..][..k]
    ensures |Encode(ms[..k + 1])| == |Frame(ms[0])| + |Encode(ms[1..][..k])|
  {
    EncodeTake(ms, k + 1);
  }

  lemma OneWholeFrame(ms: seq<seq<byte>>, p: nat)
    requires AllMessages(ms) && |ms| > 0 && |Frame(ms[0])| <= p <= |Encode(ms)|
    requires p - |Frame(ms[0])| <= |Encode(ms[1..])| && ReadsPrefix(ms[1..], p - |Frame(ms[0])|)
    ensures ReadsPrefix(ms, p)
  {
    PrefixSplit(ms, p);
    ReceivePrefix(ms, p);
    TakeOneMore(ms, WholeFrames(ms[1..], p - |Frame(ms[0])|));
  }

  /** Given any prefix of an encoded stream, the receiver prints exactly the whole messages
      in it, in order, and takes it for a clean close exactly when it ends between frames. */
  lemma {:induction false} ReceiveOfPrefix(ms: seq<seq<byte>>, p: nat)
    requires AllMessages(ms) && p <= |Encode(ms)|
    ensures ReadsPrefix(ms, p)
    decreases |ms|
  {
    if ms == [] || p < |Frame(ms[0])| {
      NoWholeFrame(ms, p);
    } else {
      ReceiveOfPrefix(ms[1..], p - |Frame(ms[0])|);
      OneWholeFrame(ms, p);
    }
  }

  /** Whole streams round-trip. */
  lemma {:induction false} RoundTrip(ms: seq<seq<byte>>)
    requires AllMessages(ms)
    ensures Receive(Encode(ms)) == Reception(ms, Closed)
    decreases |ms|
  {
    if ms != [] {
      ReceiveMessage(ms[0], Encode(ms[1..]));
      RoundTrip(ms[1..]);
    }
  }

  // ----- How the receiver ends, on any stream -----

  /** What is at the head of `t` leads the receiver past its buffer: a positive length beyond the
      buffer and more bytes than fit it, or a length of just the buffer and that many bytes without a
      zero. */
  predicate LeadsPast(t: seq<byte>) {
    && |t| >= 4
    && var len, body := LengthOf(t[..4]), t[4..];
       || (len > 1024 && |body| > 1024)
       || (len == 1024 && |body| >= 1024 && 0 !in body[..1024])
  }

  /** It breaks off inside a packet that has not led past the buffer, or has a negative length. */
  predicate BreaksOff(t: seq<byte>) {
    && t != [] && !LeadsPast(t)
    && (|t| < 4 || LengthOf(t[..4]) < 0 || |t| - 4 < LengthOf(t[..4]))
  }

  /** `s` is the packets of `bodies`, then `t`. */
  ghost predicate Splits(s: seq<byte>, bodies: seq<seq<byte>>, t: seq<byte>) {
    AllBodies(bodies) && s == Encode(bodies) + t
  }

  lemma FirstPacket(s: seq<byte>)
    requires |s| >= 4 && 0 <= LengthOf(s[..4]) <= |s| - 4 && !LeadsPast(s)
    ensures var len := LengthOf(s[..4]);
      IsBody(s[4..4 + len]) && s == Frame(s[4..4 + len]) + s[4 + len..]
  {
    var len := LengthOf(s[..4]);
    LengthWritesBack(s[..4]);
    assert s[4..][..len] == s[4..4 + len];
  }

  lemma JoinFrames(a: seq<byte>, b: seq<byte>, c: seq<byte>)
    ensures a + (b + c) == (a + b) + c
  {}

  lemma EncodeFirst(m: seq<byte>, ms: seq<seq<byte>>, t: seq<byte>)
    requires IsBody(m) && AllBodies(ms)
    ensures AllBodies([m] + ms) && Encode([m] + ms) + t == Frame(m) + (Encode(ms) + t)
  {
    assert ([m] + ms)[1..] == ms;
    JoinFrames(Frame(m), Encode(ms), t);
  }

  /** Every stream is some packets that fit the buffer, and then its end, a piece of a packet, or
      what leads past the buffer. */
  lemma {:induction false} Parse(s: seq<byte>) returns (bodies: seq<seq<byte>>, t: seq<byte>)
    ensures Splits(s, bodies, t) && (t == [] || LeadsPast(t) || BreaksOff(t))
    decreases |s|
  {
    if s == [] || LeadsPast(s) || BreaksOff(s) {
      bodies, t := [], s;
      assert s == Encode([]) + s;
    } else {
      FirstPacket(s);
      var len := LengthOf(s[..4]);
      bodies, t := Parse(s[4 + len..]);
      EncodeFirst(s[4..4 + len], bodies, t);
      bodies := [s[4..4 + len]] + bodies;
    }
  }

  lemma TextsFirst(m: seq<byte>, ms: seq<seq<byte>>, more: seq<seq<byte>>)
    ensures CStrings([m] + ms) + more == [CString(m)] + (CStrings(ms) + more)
  {
    assert CStrings([m] + ms) == [CString(m)] + CStrings(ms);
  }

  /** What the receiver does with packets that fit its buffer and with what is behind them. */
  lemma {:induction false} ReceiveSplit(bodies: seq<seq<byte>>, t: seq<byte>)
    requires AllBodies(bodies)
    ensures Receive(Encode(bodies) + t) == Reception(CStrings(bodies) + Receive(t).printed, Receive(t).ending)
    decreases |bodies|
  {
    if bodies == [] {
      assert Encode([]) + t == t;
    } else {
      var m, ms := bodies[0], bodies[1..];
      assert bodies == [m] + ms;
      assert Encode(bodies) + t == Frame(m) + (Encode(ms) + t) by { EncodeFirst(m, ms, t); }
      ReceiveFrame(m, Encode(ms) + t);
      ReceiveSplit(ms, t);
      TextsFirst(m, ms, Receive(t).printed);
    }
  }

  lemma ReceiveEnd(t: seq<byte>)
    ensures t == [] ==> Receive(t) == Reception([], Closed)
    ensures LeadsPast(t) ==> Receive(t) == Reception([], Overrun)
    ensures BreaksOff(t) ==> Receive(t) == Reception([], Failed)
  {
    if LeadsPast(t) && LengthOf(t[..4]) == BUFFER_LENGTH {
      assert t[4..][..BUFFER_LENGTH] == t[4..4 + BUFFER_LENGTH];
    }
    if BreaksOff(t) && |t| >= 4 && LengthOf(t[..4]) > BUFFER_LENGTH {
      assert |t| - 4 <= BUFFER_LENGTH;
    }
  }

  lemma ReceiveOf(s: seq<byte>, bodies: seq<seq<byte>>, t: seq<byte>)
    requires Splits(s, bodies, t) && (t == [] || LeadsPast(t) || BreaksOff(t))
    ensures Receive(s) == Reception(CStrings(bodies), if t == [] then Closed else if LeadsPast(t) then Overrun else Failed)
  {
    ReceiveSplit(bodies, t);
    ReceiveEnd(t);
    assert CStrings(bodies) + [] == CStrings(bodies);
  }

  /** The receiver is led past its buffer exactly when the stream is some packets that fit it and
      then a packet that leads past it; it sees a clean close exactly when the stream is only such
      packets; in all other cases it fails. */
  lemma EndsExactlyWhen(s: seq<byte>)
    ensures Receive(s).ending == Overrun <==> exists bodies, t :: Splits(s, bodies, t) && LeadsPast(t)
    ensures Receive(s).ending == Failed <==> exists bodies, t :: Splits(s, bodies, t) && BreaksOff(t)
    ensures Receive(s).ending == Closed <==> exists bodies :: Splits(s, bodies, [])
  {
    var bodies, t := Parse(s);
    ReceiveOf(s, bodies, t);
    forall bs, u | Splits(s, bs, u) && (LeadsPast(u) || BreaksOff(u))
      ensures Receive(s).ending == if LeadsPast(u) then Overrun else Failed
    {
      ReceiveOf(s, bs, u);
    }
    forall bs | Splits(s, bs, []) ensures Receive(s).ending == Closed {
      ReceiveOf(s, bs, []);
    }
  }

  /** A length beyond the buffer leads past it if it is positive as an int and there is a byte more
      than fits, and otherwise fails. */
  lemma LongLength(n: nat, body: seq<byte>)
    requires 1024 < n < 0x1_0000_0000
    ensures Receive(BigEndian(n) + body) ==
      Reception([], if n < 0x8000_0000 && |body| > 1024 then Overrun else Failed)
  {
    LengthReadsBack(n);
    assert (BigEndian(n) + body)[..4] == BigEndian(n);
  }

  /** A negative length fails whatever is behind it. */
  lemma NegativeLength(header: seq<byte>, body: seq<byte>)
    requires |header| == 4 && header[0] as int >= 0x80
    ensures LengthOf(header) < 0 && Receive(header + body) == Reception([], Failed)
  {
    assert (header + body)[..4] == header;
  }

  /** A body of just the buffer is printed if there is a zero in it. */
  lemma FullBody(body: seq<byte>)
    requires |body| == 1024
    ensures Receive(Frame(body)) == if 0 in body then Reception([CString(body)], Closed) else Reception([], Overrun)
  {
    LengthReadsBack(BUFFER_LENGTH);
    assert Frame(body)[4..4 + BUFFER_LENGTH] == body;
    if 0 in body {
      ReceiveFrame(body, []);
      assert Frame(body) + [] == Frame(body);
    }
  }

  // ----- The bytes on the wire -----

  /** The header and the text of one message. */
  function Wire(m: seq<byte>): seq<byte>
    requires |m| < 1024
  {
    [0, 0, |m| / 256, |m| % 256] + m
  }

  lemma FrameOnWire(m: seq<byte>)
    requires IsMessage(m)
    ensures Frame(m) == Wire(m)
  {
    HeaderBytes(|m|);
    assert BigEndian(|m|) == [0, 0, |m| / 256, |m| % 256];
  }

  /** Message `k` lies behind the ones before it, with a header of two zeros and its length in two bytes. */
  lemma {:induction false} WireBytes(ms: seq<seq<byte>>, k: nat)
    requires AllMessages(ms) && k < |ms|
    ensures Encode(ms) == Encode(ms[..k]) + (([0, 0, |ms[k]| / 256, |ms[k]| % 256] + ms[k]) + Encode(ms[k + 1..]))
    decreases k
  {
    if k == 0 {
      FrameOnWire(ms[0]);
      assert Encode(ms[..0]) == [];
    } else {
      WireBytes(ms[1..], k - 1);
      EncodeTake(ms, k);
      assert ms[1..][k..] == ms[k + 1..];
      JoinFrames(Frame(ms[0]), Encode(ms[1..][..k - 1]), Wire(ms[k]) + Encode(ms[k + 1..]));
    }
  }

  lemma StartsOnWire(before: seq<byte>, ms: seq<seq<byte>>)
    requires AllMessages(ms) && ms != []
    ensures before + Wire(ms[0]) <= before + Encode(ms)
  {
    FrameOnWire(ms[0]);
    JoinFrames(before, Wire(ms[0]), Encode(ms[1..]));
  }

  // ----- The programs -----

  /** Sends line `k`, as fgets stores it in the packet buffer; strlen stops at a zero byte. */
  method SendPacket(sock: Socket, lines: seq<seq<byte>>, k: nat, ghost ok: bool, ghost before: seq<byte>)
    requires k < |lines| && forall j :: 0 <= j < |lines| ==> |lines[j]| < BUFFER_LENGTH
    requires ok ==> NoFailure(sock.writeFates) && sock.outgoing == before + Encode(Texts(lines[..k]))
    modifies sock`outgoing, sock`writeFates
    ensures ok ==> NoFailure(sock.writeFates) && sock.outgoing == before + Encode(Texts(lines[..k + 1]))
  {
    ghost var sent := Encode(Texts(lines[..k]));
    var text := CString(lines[k]);
    var packet := BigEndian(|text|) + text;
    var n := sock.Writen(packet);
    assert packet[..|packet|] == packet;
    assert before + sent + packet == before + (sent + packet);
    EncodeNext(lines, k);
  }

  /** The sending loop: a line at a time. */
  method SendLines(sock: Socket, lines: seq<seq<byte>>)
    requires forall k :: 0 <= k < |lines| ==> |lines[k]| < BUFFER_LENGTH
    modifies sock`outgoing, sock`writeFates
    ensures NoFailure(old(sock.writeFates)) ==> sock.outgoing == old(sock.outgoing) + Encode(Texts(lines))
    ensures NoFailure(old(sock.writeFates)) && lines != [] ==>
      old(sock.outgoing) + Wire(CString(lines[0])) <= sock.outgoing
  {
    ghost var ok, before := NoFailure(sock.writeFates), sock.outgoing;
    var k := 0;
    assert lines[..0] == [] && Texts([]) == [];
    while k < |lines|
      invariant k <= |lines|
      invariant ok ==> NoFailure(sock.writeFates) && sock.outgoing == before + Encode(Texts(lines[..k]))
    {
      SendPacket(sock, lines, k, ok, before);
      k := k + 1;
    }
    assert lines[..k] == lines;
    if lines != [] {
      StartsOnWire(before, Texts(lines));
    }
  }

  function Texts(lines: seq<seq<byte>>): (r: seq<seq<byte>>)
    requires forall k :: 0 <= k < |lines| ==> |lines[k]| < BUFFER_LENGTH
    ensures |r| == |lines| && AllMessages(r)
  {
    CStrings(lines)
  }

  lemma EncodeNext(lines: seq<seq<byte>>, k: nat)
    requires k < |lines| && forall j :: 0 <= j < |lines| ==> |lines[j]| < BUFFER_LENGTH
    ensures Encode(Texts(lines[..k + 1])) == Encode(Texts(lines[..k])) + Frame(CString(lines[k]))
  {
    assert lines[..k + 1][..k] == lines[..k];
    assert Texts(lines[..k + 1]) == Texts(lines[..k]) + [CString(lines[k])];
    EncodeAppend(Texts(lines[..k]), CString(lines[k]));
  }

  lemma {:induction false} EncodeAppend(ms: seq<seq<byte>>, m: seq<byte>)
    requires AllMessages(ms) && IsMessage(m)
    ensures Encode(ms + [m]) == Encode(ms) + Frame(m)
    decreases |ms|
  {
    if ms == [] {
      assert [m][1..] == [];
      assert Encode([m]) == Frame(m) + Encode([]);
    } else {
      EncodeAppend(ms[1..], m);
      assert (ms + [m])[1..] == ms[1..] + [m];
      JoinFrames(Frame(ms[0]), Encode(ms[1..]), Frame(m));
    }
  }

  lemma TextOf(buf: seq<byte>, before: seq<byte>, data: seq<byte>)
    requires Overlaid(buf, before, 0, data) && forall k :: 0 <= k < |before| ==> before[k] == 0
    ensures FPuts(buf) == if |data| < |buf| then Some(CString(data)) else FPuts(data)
  {
    assert buf[..|data|] == data by {
      assert forall k :: 0 <= k < |data| ==> buf[0 + k] == data[k];
    }
    FPutsPadded(buf, |data|);
  }

  /** Reads `n` bytes of a packet into the cleared buffer; `text` is what fputs finds there. */
  method ReadBody(sock: Socket, buf: array<byte>, n: nat) returns (ret: int, text: Option<seq<byte>>)
    requires n <= buf.Length && forall k :: 0 <= k < buf.Length ==> buf[k] == 0
    modifies sock`incoming, sock`readFates, buf
    ensures |sock.incoming| <= |old(sock.incoming)|
    ensures NoFailure(old(sock.readFates)) ==> ret != -1 && NoFailure(sock.readFates)
    ensures ret != -1 ==>
      && ret == Min(n, |old(sock.incoming)|)
      && sock.incoming == old(sock.incoming)[ret..]
      && text == (if ret < buf.Length then Some(CString(old(sock.incoming)[..ret])) else FPuts(old(sock.incoming)[..ret]))
  {
    ghost var before := buf[..];
    ret := sock.Readn(buf, 0, n);
    text := FPuts(buf[..]);
    if ret != -1 {
      TextOf(buf[..], before, old(sock.incoming)[..ret]);
    }
  }

  /** Whether there is more of a body behind a full buffer. */
  method ReadBeyond(sock: Socket) returns (beyond: bool)
    modifies sock`incoming, sock`readFates
    ensures NoFailure(old(sock.readFates)) ==> NoFailure(sock.readFates) && beyond == (old(sock.incoming) != [])
    ensures beyond ==> old(sock.incoming) != []
  {
    var extra := new byte[1];
    var n := sock.Readn(extra, 0, 1);
    beyond := n == 1;
  }

  /** The cases of `Receive` once the length `len` is read; `body` is the stream behind it. */
  lemma ReceiveBody(s: seq<byte>, len: nat, body: seq<byte>)
    requires |s| >= 4 && len == LengthOf(s[..4]) && body == s[4..]
    ensures Receive(s) ==
      if len > BUFFER_LENGTH && |body| > BUFFER_LENGTH then Reception([], Overrun)
      else if |body| < len then Reception([], Failed)
      else if len == BUFFER_LENGTH && FPuts(body[..len]).None? then Reception([], Overrun)
      else After([CString(body[..len])], Receive(body[len..]))
  {
    if len <= |body| {
      assert s[4..4 + len] == body[..len];
      assert s[4 + len..] == body[len..];
    }
  }

  /** One round of the receiving loop: the text of a packet, or how the loop ends. */
  method ReceivePacket(sock: Socket, header: array<byte>, buf: array<byte>) returns (text: seq<byte>, ending: Option<Ending>)
    requires header.Length == 4 && buf.Length == BUFFER_LENGTH && header != buf
    requires forall k :: 0 <= k < buf.Length ==> buf[k] == 0
    modifies sock`incoming, sock`readFates, header, buf
    ensures NoFailure(old(sock.readFates)) ==> NoFailure(sock.readFates)
    ensures ending.Some? && (ending.value != Failed || NoFailure(old(sock.readFates))) ==>
      Receive(old(sock.incoming)) == Reception([], ending.value)
    ensures ending.None? ==>
      && |sock.incoming| < |old(sock.incoming)|
      && Receive(old(sock.incoming)) == After([text], Receive(sock.incoming))
  {
    ghost var s := sock.incoming;
    var n := sock.Readn(header, 0, 4);
    if n == -1 {
      return [], Some(Failed);
    } else if n == 0 {
      return [], Some(Closed);
    } else if n < 4 {
      return [], Some(Failed);
    }
    assert header[..] == s[..4];
    var len := LengthOf(header[..]);
    if len < 0 {
      return [], Some(Failed);  // the read with such a count is refused
    }
    ReceiveBody(s, len, sock.incoming);
    var printed;
    n, printed := ReadBody(sock, buf, Min(len, BUFFER_LENGTH));
    if n == -1 {
      return [], Some(Failed);
    } else if len > BUFFER_LENGTH && n == BUFFER_LENGTH {
      var beyond := ReadBeyond(sock);
      return [], Some(if beyond then Overrun else Failed);
    } else if n != len {
      return [], Some(Failed);
    } else if printed.None? {
      return [], Some(Overrun);
    }
    text, ending := printed.value, None;
  }

  /** `first` has been printed before. */
  function After(first: seq<seq<byte>>, r: Reception): Reception { r.(printed := first + r.printed) }

  lemma AfterNext(first: seq<seq<byte>>, text: seq<byte>, r: Reception)
    ensures After(first, After([text], r)) == After(first + [text], r)
  {
    assert first + ([text] + r.printed) == (first + [text]) + r.printed;
  }

  /** The receiving loop, over one packet buffer that is cleared before each use. */
  method ReceiveLines(sock: Socket) returns (printed: seq<seq<byte>>, ending: Ending)
    modifies sock`incoming, sock`readFates
    ensures ending != Failed || NoFailure(old(sock.readFates)) ==> Reception(printed, ending) == Receive(old(sock.incoming))
    ensures printed <= Receive(old(sock.incoming)).printed
  {
    var header, buf := new byte[4], new byte[BUFFER_LENGTH](_ => 0);
    ghost var ok, whole := NoFailure(sock.readFates), Receive(sock.incoming);
    ghost var rest := whole;
    printed := [];
    while true
      invariant forall k :: 0 <= k < buf.Length ==> buf[k] == 0
      invariant ok ==> NoFailure(sock.readFates)
      invariant rest == Receive(sock.incoming) && whole == After(printed, rest)
      decreases |sock.incoming|
    {
      var text, end := ReceivePacket(sock, header, buf);
      if end.Some? {
        assert ok || end.value != Failed ==> rest == Reception([], end.value);
        return printed, end.value;
      }
      assert rest == After([text], Receive(sock.incoming));
      rest := Receive(sock.incoming);
      AfterNext(printed, text, rest);
      printed := printed + [text];
      forall k | 0 <= k < buf.Length {
        buf[k] := 0;
      }
    }
  }

  /** Lines sent by one program come out of the other as they were, whatever becomes of the
      system calls in between. */
  method Transfer(lines: seq<seq<byte>>, writeFates: seq<Fate>, readFates: seq<Fate>)
    returns (printed: seq<seq<byte>>, ending: Ending)
    requires forall k :: 0 <= k < |lines| ==> |lines[k]| < BUFFER_LENGTH
    requires NoFailure(writeFates) && NoFailure(readFates)
    ensures printed == Texts(lines) && ending == Closed
  {
    var sender := new Socket([], [], [], writeFates);
    SendLines(sender, lines);
    var receiver := new Socket(sender.outgoing, readFates, [], []);
    assert receiver.incoming == Encode(Texts(lines));
    RoundTrip(Texts(lines));
    printed, ending := ReceiveLines(receiver);
  }
}
