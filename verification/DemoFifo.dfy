/** The queue that the demo-fifo driver promises to be. */
module FifoSpec {
  import opened Machine

  const CAPACITY: nat := 32767

  /** The bytes stored, oldest first, and the two signals that wake waiting clients. */
  datatype Queue = Queue(items: seq<Byte>, readable: bool, writable: bool)

  datatype Op = Read(len: nat) | Write(buf: seq<Byte>)

  datatype Result = Result(q: Queue, bytes: seq<Byte>)

  /** A fresh device is empty, so writable but not readable. */
  const BOUND := Queue([], false, true)

  function WriteTo(q: Queue, buf: seq<Byte>): (r: Result)
    requires |q.items| <= CAPACITY
  {
    var n := Min(|buf|, CAPACITY - |q.items|);
    Result(if n == 0 then q.(writable := false) else q.(items := q.items + buf[..n], readable := true), buf[..n])
  }

  function ReadFrom(q: Queue, len: nat): (r: Result) {
    var n := Min(len, |q.items|);
    Result(if n == 0 then q.(readable := false) else q.(items := q.items[n..], writable := true), q.items[..n])
  }

  /** A run: the final queue, the bytes that writes accepted and the bytes that reads delivered. */
  datatype Run = Run(q: Queue, accepted: seq<Byte>, delivered: seq<Byte>)

  ghost function After(ops: seq<Op>): (r: Run)
    ensures |r.q.items| <= CAPACITY
    decreases |ops|
  {
    if ops == [] then Run(BOUND, [], [])
    else
      var before := After(ops[..|ops| - 1]);
      match ops[|ops| - 1]
      case Read(len) =>
        var r := ReadFrom(before.q, len);
        Run(r.q, before.accepted, before.delivered + r.bytes)
      case Write(buf) =>
        var r := WriteTo(before.q, buf);
        Run(r.q, before.accepted + r.bytes, before.delivered)
  }

  /** Nothing is lost, invented, repeated or reordered, over any run. */
  lemma {:induction false} FirstInFirstOut(ops: seq<Op>)
    ensures var r := After(ops); r.delivered + r.q.items == r.accepted
    decreases |ops|
  {
    if ops != [] {
      var before := After(ops[..|ops| - 1]);
      FirstInFirstOut(ops[..|ops| - 1]);
      match ops[|ops| - 1]
      case Read(len) =>
        var n := Min(len, |before.q.items|);
        assert before.q.items == before.q.items[..n] + before.q.items[n..];
      case Write(buf) =>
    }
  }

  /** Stored bytes keep the readable signal up, and free room keeps the writable signal up. */
  ghost predicate Awake(q: Queue) {
    && (q.items != [] ==> q.readable)
    && (|q.items| < CAPACITY ==> q.writable)
  }

  /** An empty request is harmless only when a positive one could not have been served either. */
  ghost predicate Harmless(q: Queue, op: Op) {
    match op
    case Read(len) => len > 0 || q.items == []
    case Write(buf) => buf != [] || |q.items| == CAPACITY
  }

  /** Every state of the run, from the bound device on, keeps both signals up. */
  ghost predicate AwakeThroughout(ops: seq<Op>)
    decreases |ops|
  {
    Awake(After(ops).q) && (ops != [] ==> AwakeThroughout(ops[..|ops| - 1]))
  }

  /** Every request of the run is harmless in the state it meets. */
  ghost predicate HarmlessThroughout(ops: seq<Op>)
    decreases |ops|
  {
    ops != [] ==>
      var n := |ops| - 1;
      Harmless(After(ops[..n]).q, ops[n]) && HarmlessThroughout(ops[..n])
  }

  lemma StepAwake(ops: seq<Op>)
    requires ops != [] && Awake(After(ops[..|ops| - 1]).q)
    ensures Awake(After(ops).q) <==> Harmless(After(ops[..|ops| - 1]).q, ops[|ops| - 1])
  {
    var before := After(ops[..|ops| - 1]).q;
    match ops[|ops| - 1]
    case Read(len) =>
      assert After(ops).q == ReadFrom(before, len).q;
    case Write(buf) =>
      assert After(ops).q == WriteTo(before, buf).q;
  }

  /** A wakeup is lost in some state of a run exactly when the run has an empty request that is not harmless. */
  lemma {:induction false} NoLostWakeupExactly(ops: seq<Op>)
    ensures AwakeThroughout(ops) <==> HarmlessThroughout(ops)
    decreases |ops|
  {
    if ops != [] {
      var init := ops[..|ops| - 1];
      NoLostWakeupExactly(init);
      if AwakeThroughout(init) {
        StepAwake(ops);
      }
    }
  }

  /** A read of length 0 takes the readable signal down although a byte is waiting. */
  lemma EmptyReadLosesWakeup(b: Byte)
    ensures var q := After([Write([b]), Read(0)]).q; q.items == [b] && !q.readable
  {
    var ops := [Write([b]), Read(0)];
    assert ops[..1] == [Write([b])] && ops[..1][..0] == [];
    assert After(ops[..1]).q == WriteTo(After([]).q, [b]).q;
    assert After(ops).q == ReadFrom(After(ops[..1]).q, 0).q;
  }

  ghost predicate Positive(op: Op) {
    match op
    case Read(len) => len > 0
    case Write(buf) => buf != []
  }

  /** Requests of positive length never lose a wakeup. */
  lemma {:induction false} PositiveRequestsKeepAwake(ops: seq<Op>)
    requires forall op :: op in ops ==> Positive(op)
    ensures AwakeThroughout(ops)
    decreases |ops|
  {
    if ops != [] {
      var n := |ops| - 1;
      PositiveRequestsKeepAwake(ops[..n]);
      assert Positive(ops[n]);
      StepAwake(ops);
    }
  }
}

/** The driver: free-running 32-bit counters over a buffer of FIFOSIZE bytes. */
module DemoFifo {
  import opened Machine
  import opened FifoSpec

  const FIFOSIZE: nat := 32768

  datatype Status = ZX_OK | ZX_ERR_SHOULD_WAIT

  /** `x & FIFOMASK` */
  function Masked(x: U32): (r: nat)
    ensures r < FIFOSIZE
  {
    x % 32768
  }

  /** The slot `i` places after slot `t`. */
  function Slot(t: nat, i: nat): (r: nat)
    requires t < FIFOSIZE && i <= FIFOSIZE
    ensures r < FIFOSIZE
  {
    if t + i < FIFOSIZE then t + i else t + i - FIFOSIZE
  }

  /** The bytes in `n` slots, starting at slot `t` and going around the ring. */
  function Slots(data: seq<Byte>, t: nat, n: nat): (s: seq<Byte>)
    requires |data| == FIFOSIZE && t < FIFOSIZE && n <= FIFOSIZE
    ensures |s| == n
    ensures forall i :: 0 <= i < n ==> s[i] == data[Slot(t, i)]
  {
    seq(n, i requires 0 <= i < n => data[Slot(t, i)])
  }

  /** Advancing a counter moves its slot, also where the 32-bit counter wraps. */
  lemma MaskedAdd(x: U32, n: nat)
    requires n <= FIFOSIZE
    ensures Masked(Add32(x, n)) == Slot(Masked(x), n)
  {
  }

  /** The masked difference of the counters is the distance between their slots. */
  lemma MaskedSub(head: U32, tail: U32)
    ensures Slot(Masked(tail), Masked(Sub32(head, tail))) == Masked(head)
  {
  }

  /** Only one distance below FIFOSIZE joins two slots. */
  lemma DistanceUnique(head: U32, tail: U32, n: nat)
    requires n < FIFOSIZE && Slot(Masked(tail), n) == Masked(head)
    ensures Masked(Sub32(head, tail)) == n
  {
    MaskedSub(head, tail);
  }

  /** A put moves the distance up by what it copied. */
  lemma PutDistance(head: U32, tail: U32, count: nat)
    requires Masked(Sub32(head, tail)) + count < FIFOSIZE
    ensures Masked(Sub32(Add32(head, count), tail)) == Masked(Sub32(head, tail)) + count
  {
    MaskedSub(head, tail);
    MaskedAdd(head, count);
    DistanceUnique(Add32(head, count), tail, Masked(Sub32(head, tail)) + count);
  }

  /** A get moves the distance down by what it copied. */
  lemma GetDistance(head: U32, tail: U32, count: nat)
    requires count <= Masked(Sub32(head, tail))
    ensures Masked(Sub32(head, Add32(tail, count))) == Masked(Sub32(head, tail)) - count
  {
    MaskedSub(head, tail);
    MaskedAdd(tail, count);
    DistanceUnique(head, Add32(tail, count), Masked(Sub32(head, tail)) - count);
  }

  /** A copy into free slots after the stored ones appends. */
  lemma SlotsAppend(data: seq<Byte>, data': seq<Byte>, t: nat, n: nat, bytes: seq<Byte>)
    requires |data| == |data'| == FIFOSIZE && t < FIFOSIZE && n + |bytes| < FIFOSIZE
    requires Slot(t, n) + |bytes| <= FIFOSIZE
    requires data' == data[..Slot(t, n)] + bytes + data[Slot(t, n) + |bytes|..]
    ensures Slots(data', t, n + |bytes|) == Slots(data, t, n) + bytes
  {
  }

  /** The first slots and the rest. */
  lemma SlotsSplit(data: seq<Byte>, t: nat, n: nat, count: nat)
    requires |data| == FIFOSIZE && t < FIFOSIZE && count <= n < FIFOSIZE && t + count <= FIFOSIZE
    ensures Slots(data, t, n) == data[t..t + count] + Slots(data, Slot(t, count), n - count)
  {
  }

  lemma PrefixGrows(all: seq<Byte>, buf: seq<Byte>, n: nat, count: nat)
    requires n + count <= |buf|
    ensures all + buf[..n] + buf[n..][..count] == all + buf[..n + count]
  {
  }

  class FifoDev {
    var head: U32
    var tail: U32
    var data: array<Byte>
    var readable: bool
    var writable: bool

    ghost predicate Valid()
      reads this
    {
      data.Length == FIFOSIZE
    }

    function FifoReadable(): (n: nat)
      reads this
      ensures n <= CAPACITY
    {
      Masked(Sub32(head, tail))
    }

    function FifoWritable(): (n: nat)
      reads this
    {
      32767 - Masked(Sub32(head, tail))
    }

    /** The stored bytes, from tail to head around the ring. */
    ghost function Contents(): (s: seq<Byte>)
      requires Valid()
      reads this, data
    {
      Slots(data[..], Masked(tail), FifoReadable())
    }

    ghost function View(): (q: Queue)
      requires Valid()
      reads this, data
    {
      Queue(Contents(), readable, writable)
    }

    /** fifo_bind on a zeroed structure */
    constructor ()
      ensures Valid() && fresh(data) && View() == BOUND
    {
      head, tail := 0, 0;
      data := new Byte[FIFOSIZE](_ => 0);
      readable, writable := false, true;
    }

    /** One copy into the ring that stops at the end of the buffer. */
    method FifoPut(buf: seq<Byte>) returns (count: nat)
      requires Valid()
      modifies this`head, data
      ensures Valid()
      ensures count == Min(Min(old(FifoWritable()), FIFOSIZE - Masked(old(head))), |buf|)
      ensures Contents() == old(Contents()) + buf[..count]
      ensures FifoReadable() == old(FifoReadable()) + count
    {
      count := FifoWritable();
      var pos := Masked(head);
      var space := FIFOSIZE - pos;
      if count > space {
        count := space;
      }
      if count > |buf| {
        count := |buf|;
      }
      ghost var was := data[..];
      forall i | 0 <= i < count {
        data[pos + i] := buf[i];
      }
      assert data[..] == was[..pos] + buf[..count] + was[pos + count..];
      MaskedSub(head, tail);
      PutDistance(head, tail, count);
      SlotsAppend(was, data[..], Masked(tail), FifoReadable(), buf[..count]);
      head := Add32(head, count);
    }

    /** One copy out of the ring that stops at the end of the buffer. */
    method FifoGet(len: nat) returns (bytes: seq<Byte>)
      requires Valid()
      modifies this`tail
      ensures Valid()
      ensures |bytes| == Min(Min(old(FifoReadable()), FIFOSIZE - Masked(old(tail))), len)
      ensures old(Contents()) == bytes + Contents()
    {
      var count := FifoReadable();
      var pos := Masked(tail);
      var space := FIFOSIZE - pos;
      if count > space {
        count := space;
      }
      if count > len {
        count := len;
      }
      bytes := data[pos..pos + count];
      MaskedAdd(tail, count);
      GetDistance(head, tail, count);
      SlotsSplit(data[..], pos, FifoReadable(), count);
      tail := Add32(tail, count);
    }

    method FifoRead(len: nat) returns (status: Status, bytes: seq<Byte>)
      requires Valid()
      modifies this
      ensures Valid() && data == old(data)
      ensures Result(View(), bytes) == ReadFrom(old(View()), len)
      ensures |bytes| == Min(len, |old(Contents())|) && old(Contents()) == bytes + Contents()
      ensures readable == (old(readable) && bytes != []) && writable == (old(writable) || bytes != [])
      ensures status == if bytes == [] then ZX_ERR_SHOULD_WAIT else ZX_OK
    {
      ghost var all := Contents();
      bytes := [];
      var left := len;
      var got := FifoGet(left);
      while |got| > 0
        invariant Valid() && data == old(data) && readable == old(readable) && writable == old(writable)
        invariant |bytes| + |got| <= len && left == len - |bytes|
        invariant all == bytes + got + Contents()
        invariant |got| == 0 ==> left == 0 || |Contents()| == 0
        decreases left
      {
        left := left - |got|;
        bytes := bytes + got;
        ghost var rest := Contents();
        got := FifoGet(left);
        assert bytes + rest == bytes + got + Contents();
      }
      assert |bytes| == Min(len, |all|);
      assert bytes == all[..|bytes|] && Contents() == all[|bytes|..];
      if |bytes| == 0 {
        readable := false;
      } else {
        writable := true;
      }
      status := if |bytes| == 0 then ZX_ERR_SHOULD_WAIT else ZX_OK;
    }

    method FifoWrite(buf: seq<Byte>) returns (status: Status, n: nat)
      requires Valid()
      modifies this, data
      ensures Valid() && data == old(data)
      ensures n <= |buf| && Result(View(), buf[..n]) == WriteTo(old(View()), buf)
      ensures n == Min(|buf|, 32767 - |old(Contents())|) && Contents() == old(Contents()) + buf[..n]
      ensures readable == (old(readable) || n > 0) && writable == (old(writable) && n > 0)
      ensures status == if n == 0 then ZX_ERR_SHOULD_WAIT else ZX_OK
    {
      ghost var all := Contents();
      n := 0;
      var count := FifoPut(buf);
      while count > 0
        invariant Valid() && data == old(data) && readable == old(readable) && writable == old(writable)
        invariant n + count <= |buf|
        invariant Contents() == all + buf[..n + count]
        invariant count == 0 ==> n == |buf| || |Contents()| == CAPACITY
        decreases |buf| - n
      {
        n := n + count;
        count := FifoPut(buf[n..]);
        PrefixGrows(all, buf, n, count);
      }
      assert n == Min(|buf|, CAPACITY - |all|);
      if n == 0 {
        writable := false;
      } else {
        readable := true;
      }
      status := if n == 0 then ZX_ERR_SHOULD_WAIT else ZX_OK;
    }
  }

  /** Any run of requests on a bound device: contents, signals and bytes are those of the queue. */
  method Serve(dev: FifoDev, ops: seq<Op>) returns (accepted: seq<Byte>, delivered: seq<Byte>)
    requires dev.Valid() && dev.View() == BOUND
    modifies dev, dev.data
    ensures dev.Valid() && After(ops) == Run(dev.View(), accepted, delivered)
  {
    accepted, delivered := [], [];
    for i := 0 to |ops|
      invariant dev.Valid() && dev.data == old(dev.data)
      invariant After(ops[..i]) == Run(dev.View(), accepted, delivered)
    {
      assert ops[..i + 1][..i] == ops[..i];
      match ops[i]
      case Read(len) =>
        var status, bytes := dev.FifoRead(len);
        delivered := delivered + bytes;
      case Write(buf) =>
        var status, n := dev.FifoWrite(buf);
        accepted := accepted + buf[..n];
    }
    assert ops[..|ops|] == ops;
  }
}
