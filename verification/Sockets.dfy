// A stream socket and the loops `readn` and `writen` that both stream programs use.

/** Every system call may be cut short or interrupted: a script, one entry a call, says
    how. When the script has run out, calls transfer all they can. */
module Sockets {
  import opened Bytes
  import opened Machines

  datatype Fate = Interrupted | Fails | Moves(most: nat)

  predicate NoFailure(script: seq<Fate>) {
    forall k :: 0 <= k < |script| ==> !script[k].Fails?
  }

  function Min(a: nat, b: nat): nat { if a < b then a else b }

  /** What one read of up to `n` bytes returns when `available` bytes are left in the
      stream: 0 only at its end, or when nothing was asked for. */
  function ReadSize(available: nat, n: nat, most: nat): nat {
    Min(Min(available, n), if most == 0 then 1 else most)
  }

  /** `buf` is `before` with `data` written over it from `off` on. */
  ghost predicate Overlaid(buf: seq<byte>, before: seq<byte>, off: nat, data: seq<byte>) {
    && |buf| == |before| && off + |data| <= |buf|
    && (forall k :: 0 <= k < |data| ==> buf[off + k] == data[k])
    && (forall k :: 0 <= k < |buf| && !(off <= k < off + |data|) ==> buf[k] == before[k])
  }

  lemma OverlaidTwice(before: seq<byte>, mid: seq<byte>, buf: seq<byte>, off: nat, stream: seq<byte>, got: nat, n: nat)
    requires got + n <= |stream|
    requires Overlaid(mid, before, off, stream[..got])
    requires Overlaid(buf, mid, off + got, stream[got..][..n])
    ensures Overlaid(buf, before, off, stream[..got + n])
  {
    forall k | 0 <= k < got + n ensures buf[off + k] == stream[k] {
      if k >= got {
        assert buf[off + got + (k - got)] == stream[got..][..n][k - got];
      }
    }
  }

  /** Writing what is there already changes nothing. */
  lemma OverlaidAgain(before: seq<byte>, mid: seq<byte>, buf: seq<byte>, off: nat, stream: seq<byte>, pos: nat, n: nat, shown: nat)
    requires pos + n <= shown <= |stream|
    requires Overlaid(mid, before, off, stream[..shown])
    requires Overlaid(buf, mid, off + pos, stream[pos..][..n])
    ensures Overlaid(buf, before, off, stream[..shown])
  {
    forall k | 0 <= k < shown ensures buf[off + k] == stream[k] {
      assert mid[off + k] == stream[..shown][k];
      if pos <= k < pos + n {
        assert buf[off + pos + (k - pos)] == stream[pos..][..n][k - pos];
      }
    }
  }

  /** The text in a buffer: the bytes before the first zero. */
  function CString(buf: seq<byte>): (r: seq<byte>)
    ensures r <= buf && 0 !in r && (0 !in buf ==> r == buf)
    ensures |r| < |buf| ==> buf[|r|] == 0
  {
    if buf == [] || buf[0] == 0 then [] else [buf[0]] + CString(buf[1..])
  }

  /** Zeros behind a text do not change what is printed. */
  lemma {:induction false} CStringPadded(buf: seq<byte>, len: nat)
    requires len <= |buf| && forall k :: len <= k < |buf| ==> buf[k] == 0
    ensures CString(buf) == CString(buf[..len])
    decreases len
  {
    if len > 0 && buf[0] != 0 {
      CStringPadded(buf[1..], len - 1);
      assert buf[..len][1..] == buf[1..][..len - 1];
    }
  }

  /** What fputs prints of a buffer. Without a zero in it fputs reads on past its end. */
  function FPuts(buf: seq<byte>): Option<seq<byte>> {
    if 0 in buf then Some(CString(buf)) else None
  }

  /** What fputs prints of `len` bytes in a buffer that is zero behind them. */
  lemma FPutsPadded(buf: seq<byte>, len: nat)
    requires len <= |buf| && forall k :: len <= k < |buf| ==> buf[k] == 0
    ensures FPuts(buf) == if len < |buf| then Some(CString(buf[..len])) else FPuts(buf[..len])
  {
    CStringPadded(buf, len);
    if len == |buf| {
      assert buf[..len] == buf;
    }
  }

  /** Lines as strlen sees them. */
  function CStrings(lines: seq<seq<byte>>): (r: seq<seq<byte>>)
    ensures |r| == |lines|
  {
    seq(|lines|, k requires 0 <= k < |lines| => CString(lines[k]))
  }

  /** `t` is what is left of the stream `s` after some reading. */
  ghost predicate Suffix(t: seq<byte>, s: seq<byte>) {
    |t| <= |s| && forall k :: 0 <= k < |t| ==> t[k] == s[|s| - |t| + k]
  }

  lemma SuffixAgain(u: seq<byte>, t: seq<byte>, s: seq<byte>)
    requires Suffix(u, t) && Suffix(t, s)
    ensures Suffix(u, s)
  {
    forall k | 0 <= k < |u| ensures u[k] == s[|s| - |u| + k] {
      assert u[k] == t[|t| - |u| + k];
    }
  }

  method CopyIn(buf: array<byte>, off: nat, data: seq<byte>)
    requires off + |data| <= buf.Length
    modifies buf
    ensures Overlaid(buf[..], old(buf[..]), off, data)
  {
    forall k | 0 <= k < |data| {
      buf[off + k] := data[k];
    }
  }

  class Socket {
    var incoming: seq<byte>   // what the peer sends before it closes, less what was read
    var outgoing: seq<byte>   // all bytes written
    var readFates: seq<Fate>
    var peekFates: seq<Fate>
    var writeFates: seq<Fate>

    constructor (incoming: seq<byte>, readFates: seq<Fate>, peekFates: seq<Fate>, writeFates: seq<Fate>)
      ensures this.incoming == incoming && outgoing == []
      ensures this.readFates == readFates && this.peekFates == peekFates && this.writeFates == writeFates
    {
      this.incoming, this.outgoing := incoming, [];
      this.readFates, this.peekFates, this.writeFates := readFates, peekFates, writeFates;
    }

    /** The system call read. A result of -1 is an error, `eintr` tells an interruption. */
    method Read(buf: array<byte>, off: nat, n: nat) returns (ret: int, eintr: bool)
      requires off + n <= buf.Length
      modifies this`incoming, this`readFates, buf
      ensures -1 <= ret <= n && ret <= |old(incoming)| && (eintr ==> ret == -1)
      ensures ret == 0 ==> n == 0 || old(incoming) == []
      ensures readFates == if old(readFates) == [] then [] else old(readFates)[1..]
      ensures ret == -1 ==> old(readFates) != [] && old(readFates)[0] == if eintr then Interrupted else Fails
      ensures incoming == if ret == -1 then old(incoming) else old(incoming)[ret..]
      ensures ret == -1 ==> buf[..] == old(buf[..])
      ensures ret != -1 ==> Overlaid(buf[..], old(buf[..]), off, old(incoming)[..ret])
    {
      eintr := false;
      var most := n;
      if readFates != [] {
        var fate := readFates[0];
        readFates := readFates[1..];
        if !fate.Moves? {
          return -1, fate.Interrupted?;
        }
        most := fate.most;
      }
      ret := ReadSize(|incoming|, n, most);
      CopyIn(buf, off, incoming[..ret]);
      incoming := incoming[ret..];
    }

    /** The system call recv with MSG_PEEK: like read, but the bytes stay in the stream. */
    method Peek(buf: array<byte>, off: nat, n: nat) returns (ret: int, eintr: bool)
      requires off + n <= buf.Length
      modifies this`peekFates, buf
      ensures peekFates == if old(peekFates) == [] then [] else old(peekFates)[1..]
      ensures if old(peekFates) == [] then ret == Min(|incoming|, n)
              else if old(peekFates)[0].Moves? then ret == ReadSize(|incoming|, n, old(peekFates)[0].most)
              else ret == -1
      ensures eintr <==> old(peekFates) != [] && old(peekFates)[0] == Interrupted
      ensures ret == -1 ==> buf[..] == old(buf[..])
      ensures ret != -1 ==> Overlaid(buf[..], old(buf[..]), off, incoming[..ret])
    {
      eintr := false;
      ret := Min(|incoming|, n);
      if peekFates != [] {
        var fate := peekFates[0];
        peekFates := peekFates[1..];
        if !fate.Moves? {
          return -1, fate.Interrupted?;
        }
        ret := ReadSize(|incoming|, n, fate.most);
      }
      CopyIn(buf, off, incoming[..ret]);
    }

    /** The system call write. It may take nothing. */
    method Write(data: seq<byte>) returns (ret: int, eintr: bool)
      modifies this`outgoing, this`writeFates
      ensures -1 <= ret <= |data| && (eintr ==> ret == -1)
      ensures writeFates == if old(writeFates) == [] then [] else old(writeFates)[1..]
      ensures old(writeFates) == [] ==> ret == |data|
      ensures ret == -1 ==> old(writeFates) != [] && old(writeFates)[0] == if eintr then Interrupted else Fails
      ensures outgoing == if ret == -1 then old(outgoing) else old(outgoing) + data[..ret]
    {
      eintr := false;
      ret := |data|;
      if writeFates != [] {
        var fate := writeFates[0];
        writeFates := writeFates[1..];
        if !fate.Moves? {
          return -1, fate.Interrupted?;
        }
        ret := Min(|data|, fate.most);
      }
      outgoing := outgoing + data[..ret];
    }

    /** A call of read in the middle of the loop below: `got` bytes of `stream` are already read. */
    method ReadMore(buf: array<byte>, off: nat, got: nat, n: nat, ghost before: seq<byte>, ghost stream: seq<byte>)
      returns (ret: int, eintr: bool)
      requires off + got + n <= buf.Length && got <= |stream| && incoming == stream[got..]
      requires Overlaid(buf[..], before, off, stream[..got])
      modifies this`incoming, this`readFates, buf
      ensures -1 <= ret <= n && got + ret <= |stream| && (ret == 0 ==> n == 0 || got == |stream|)
      ensures readFates == if old(readFates) == [] then [] else old(readFates)[1..]
      ensures ret == -1 ==> old(readFates) != [] && old(readFates)[0] == if eintr then Interrupted else Fails
      ensures ret == -1 ==> incoming == old(incoming) && buf[..] == old(buf[..])
      ensures ret != -1 ==> incoming == stream[got + ret..] && Overlaid(buf[..], before, off, stream[..got + ret])
    {
      ghost var mid := buf[..];
      ret, eintr := Read(buf, off + got, n);
      if ret != -1 {
        OverlaidTwice(before, mid, buf[..], off, stream, got, ret);
      }
    }

    /** Reads `count` bytes, or all there are before the peer closes, however the calls
        are cut or interrupted; only a real error makes a difference. */
    method Readn(buf: array<byte>, off: nat, count: nat) returns (ret: int)
      requires off + count <= buf.Length
      modifies this`incoming, this`readFates, buf
      ensures Suffix(incoming, old(incoming))
      ensures NoFailure(old(readFates)) ==> ret != -1 && NoFailure(readFates)
      ensures ret != -1 ==>
        && ret == Min(count, |old(incoming)|)
        && incoming == old(incoming)[ret..]
        && Overlaid(buf[..], old(buf[..]), off, old(incoming)[..ret])
    {
      ghost var stream, before := incoming, buf[..];
      var nleft := count;
      while nleft > 0
        invariant 0 <= nleft <= count && count - nleft <= |stream|
        invariant incoming == stream[count - nleft..]
        invariant Overlaid(buf[..], before, off, stream[..count - nleft])
        invariant NoFailure(old(readFates)) ==> NoFailure(readFates)
        decreases nleft + |readFates|
      {
        var n, eintr := ReadMore(buf, off, count - nleft, nleft, before, stream);
        if n < 0 && eintr {
          continue;
        } else if n < 0 {
          return -1;
        } else if n == 0 {
          return count - nleft;
        }
        nleft := nleft - n;
      }
      return count;
    }

    /** Writes all of `data`, however the calls are cut or interrupted, or up to a real error. */
    method Writen(data: seq<byte>) returns (ret: nat)
      modifies this`outgoing, this`writeFates
      ensures ret <= |data| && outgoing == old(outgoing) + data[..ret]
      ensures NoFailure(old(writeFates)) ==> ret == |data| && NoFailure(writeFates)
    {
      var nleft := |data|;
      while nleft > 0
        invariant 0 <= nleft <= |data|
        invariant outgoing == old(outgoing) + data[..|data| - nleft]
        invariant NoFailure(old(writeFates)) ==> NoFailure(writeFates)
        decreases nleft + |writeFates|
      {
        var n, eintr := Write(data[|data| - nleft..]);
        if n < 0 && eintr {
          continue;
        } else if n < 0 {
          return |data| - nleft;
        } else if n == 0 {
          continue;
        }
        nleft := nleft - n;
      }
      assert data[..|data|] == data;
      return |data|;
    }
  }
}
