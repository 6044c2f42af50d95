// The two ring buffers as objects; their methods are the critical sections.

module RingObject {
  import opened Bytes
  import opened Machines
  import opened Arith
  import opened Ring
  import opened Sockets

  lemma BlockEnd(i: nat, j: nat, size: nat)
    requires i < j
    ensures i * size + size <= j * size
  {
    MulSum(size, i + 1, j - i - 1);
    MulSucc(size, i);
  }

  function BlockAt(payload: seq<byte>, size: nat, total: nat, i: nat): seq<byte>
    requires |payload| == total * size && i < total
  {
    BlockEnd(i, total, size);
    payload[i * size..i * size + size]
  }

  /** The blocks that lie end to end in the payload. */
  function Blocks(payload: seq<byte>, size: nat, total: nat): (r: seq<seq<byte>>)
    requires |payload| == total * size
    ensures |r| == total && forall i :: 0 <= i < total ==> r[i] == BlockAt(payload, size, total, i)
  {
    seq(total, i requires 0 <= i < total => BlockAt(payload, size, total, i))
  }

  /** Writing `data` at `to` is seen by the region there and by no region apart from it. */
  lemma RegionWritten(before: seq<byte>, after: seq<byte>, size: nat, at: nat, to: nat, data: seq<byte>)
    requires |data| == size && at + size <= |after| && Overlaid(after, before, to, data)
    requires at == to || at + size <= to || to + size <= at
    ensures after[at..at + size] == if at == to then data else before[at..at + size]
  {
    forall k | at <= k < at + size ensures after[k] == if at == to then data[k - at] else before[k] {
      assert at == to ==> after[to + (k - at)] == data[k - at];
    }
  }

  /** Different blocks lie apart. */
  lemma BlocksApart(i: nat, w: nat, size: nat)
    requires i != w
    ensures i * size + size <= w * size || w * size + size <= i * size
  {
    if i < w {
      BlockEnd(i, w, size);
    } else {
      BlockEnd(w, i, size);
    }
  }

  lemma BlockSeen(before: seq<byte>, after: seq<byte>, size: nat, total: nat, w: nat, data: seq<byte>, i: nat)
    requires |before| == total * size && |data| == size && w < total && i < total
    requires Overlaid(after, before, w * size, data)
    ensures BlockAt(after, size, total, i) == if i == w then data else BlockAt(before, size, total, i)
  {
    BlockEnd(i, total, size);
    if i != w {
      BlocksApart(i, w, size);
    }
    RegionWritten(before, after, size, i * size, w * size, data);
    if i != w && i * size == w * size {
      assert data == [] && before[i * size..i * size + size] == [];
    }
  }

  /** Writing a block at its place changes that block and no other. */
  lemma BlockWritten(before: seq<byte>, after: seq<byte>, size: nat, total: nat, w: nat, data: seq<byte>)
    requires |before| == total * size && |data| == size && w < total
    requires Overlaid(after, before, w * size, data)
    ensures Blocks(after, size, total) == Blocks(before, size, total)[w := data]
  {
    forall i: nat | i < total
      ensures Blocks(after, size, total)[i] == Blocks(before, size, total)[w := data][i]
    {
      BlockSeen(before, after, size, total, w, data, i);
    }
  }

  /** The shared-memory buffer. */
  class ShmFifo {
    const blockSize: nat
    const blockTotal: nat
    const payload: array<byte>
    var rd: nat
    var wr: nat

    ghost predicate Valid()
      reads this
    {
      && blockTotal > 0 && payload.Length == blockTotal * blockSize
      && rd < blockTotal && wr < blockTotal
    }

    ghost function View(): Data<seq<byte>>
      requires Valid()
      reads this, payload
    {
      Data(Blocks(payload[..], blockSize, blockTotal), rd, wr)
    }

    constructor (blockSize: nat, blockTotal: nat)
      requires blockTotal > 0
      ensures Valid() && fresh(payload) && this.blockSize == blockSize && this.blockTotal == blockTotal
      ensures rd == 0 && wr == 0
    {
      this.blockSize, this.blockTotal := blockSize, blockTotal;
      payload := new byte[blockTotal * blockSize](_ => 0);
      rd, wr := 0, 0;
    }

    /** Lines 91 to 96 of fifo.c. */
    method Produce(buf: array<byte>)
      requires Valid() && buf.Length == blockSize && buf != payload
      modifies payload, this`wr
      ensures Valid()
      ensures View() == Put(old(View()), buf[..])
    {
      ghost var before := payload[..];
      var pos := wr * blockSize;
      BlockEnd(wr, blockTotal, blockSize);
      CopyIn(payload, pos, buf[..]);
      BlockWritten(before, payload[..], blockSize, blockTotal, wr, buf[..]);
      wr := (wr + 1) % blockTotal;
    }

    /** Lines 115 to 120 of fifo.c. */
    method Consume(buf: array<byte>)
      requires Valid() && buf.Length == blockSize && buf != payload
      modifies buf, this`rd
      ensures Valid()
      ensures buf[..] == old(View()).slots[old(rd)]
      ensures View() == Get(old(View()), None)
    {
      var pos := rd * blockSize;
      BlockEnd(rd, blockTotal, blockSize);
      CopyIn(buf, 0, payload[pos..pos + blockSize]);
      assert buf[..] == payload[pos..pos + blockSize] == BlockAt(payload[..], blockSize, blockTotal, rd);
      rd := (rd + 1) % blockTotal;
    }
  }

  /** The buffer of numbered products. */
  class NumberedBuffer {
    const buf: array<int>
    var rd: nat
    var wr: nat
    var produceId: nat

    ghost predicate Valid()
      reads this
    {
      rd < buf.Length && wr < buf.Length
    }

    ghost function View(): Data<int>
      reads this, buf
    {
      Data(buf[..], rd, wr)
    }

    constructor (n: nat)
      requires n > 0
      ensures Valid() && fresh(buf) && produceId == 0
      ensures View() == Data(seq(n, _ => -1), 0, 0)
    {
      buf := new int[n](_ => EMPTY);
      rd, wr, produceId := 0, 0, 0;
    }

    method Produce()
      requires Valid()
      modifies buf, this`wr, this`produceId
      ensures Valid() && produceId == old(produceId) + 1
      ensures View() == Put(old(View()), old(produceId))
    {
      buf[wr] := produceId;
      produceId := produceId + 1;
      wr := (wr + 1) % buf.Length;
    }

    method Consume()
      requires Valid()
      modifies buf, this`rd
      ensures Valid()
      ensures View() == Get(old(View()), Some(-1))
    {
      buf[rd] := EMPTY;
      rd := (rd + 1) % buf.Length;
    }
  }
}
