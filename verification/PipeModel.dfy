/** A bounded pipe: a queue that silently drops its oldest byte when it is full. */
module PipeModel {
  import opened ByteStrings

  const CAPACITY := 65536
  const EPIPE := -32

  datatype Pipe = Pipe(buffer: seq<Byte>, writeClosed: bool, readClosed: bool)

  // ---------------------------------------------------------------- operations

  /** `append` on a deque with a maximum length. */
  function Push(buffer: seq<Byte>, b: Byte): seq<Byte> {
    if |buffer| == CAPACITY then buffer[1..] + [b] else buffer + [b]
  }

  function PushAll(buffer: seq<Byte>, data: seq<Byte>): seq<Byte>
    decreases |data|
  {
    if data == [] then buffer else PushAll(Push(buffer, data[0]), data[1..])
  }

  function Write(p: Pipe, data: seq<Byte>): (Pipe, int) {
    if p.writeClosed || p.readClosed then (p, EPIPE)
    else (p.(buffer := PushAll(p.buffer, data)), |data|)
  }

  function ReadCount(p: Pipe, size: int): nat {
    if size <= 0 then 0 else if size < |p.buffer| then size else |p.buffer|
  }

  /** Reading is allowed after either end was closed. */
  function Read(p: Pipe, size: int): (Pipe, seq<Byte>) {
    var n := ReadCount(p, size);
    (p.(buffer := p.buffer[n..]), p.buffer[..n])
  }

  datatype Op = OpWrite(data: seq<Byte>) | OpRead(size: int) | OpCloseWrite | OpCloseRead

  // ---------------------------------------------------------------- what happened to every byte

  /** A byte leaves the front of the buffer either to a reader or to make room. */
  datatype Departure = Delivered(byte: Byte) | Displaced(byte: Byte)

  /** The pipe with its history: bytes accepted, read results in order, and departures in order. */
  datatype Trace = Trace(pipe: Pipe, accepted: seq<Byte>, received: seq<Byte>, departed: seq<Departure>)

  /** The bytes a write pushes out, oldest first. */
  function PushedOut(buffer: seq<Byte>, data: seq<Byte>): seq<Departure>
    decreases |data|
  {
    if data == [] then []
    else (if |buffer| == CAPACITY then [Displaced(buffer[0])] else []) + PushedOut(Push(buffer, data[0]), data[1..])
  }

  function Deliveries(data: seq<Byte>): seq<Departure> {
    if data == [] then [] else [Delivered(data[0])] + Deliveries(data[1..])
  }

  function Step(t: Trace, op: Op): Trace {
    match op
    case OpWrite(data) =>
      if Write(t.pipe, data).1 == EPIPE then t
      else
        t.(pipe := Write(t.pipe, data).0,
           accepted := t.accepted + data,
           departed := t.departed + PushedOut(t.pipe.buffer, data))
    case OpRead(size) =>
      var (p, data) := Read(t.pipe, size);
      t.(pipe := p, received := t.received + data, departed := t.departed + Deliveries(data))
    case OpCloseWrite => t.(pipe := t.pipe.(writeClosed := true))
    case OpCloseRead => t.(pipe := t.pipe.(readClosed := true))
  }

  function Run(t: Trace, ops: seq<Op>): Trace
    decreases |ops|
  {
    if ops == [] then t else Run(Step(t, ops[0]), ops[1..])
  }

  function Start(): Trace {
    Trace(Pipe([], false, false), [], [], [])
  }

  ghost function Bytes(ds: seq<Departure>): seq<Byte> {
    if ds == [] then [] else [ds[0].byte] + Bytes(ds[1..])
  }

  /** The bytes that reached a reader, in order. */
  ghost function DeliveredBytes(ds: seq<Departure>): seq<Byte> {
    if ds == [] then [] else (if ds[0].Delivered? then [ds[0].byte] else []) + DeliveredBytes(ds[1..])
  }

  ghost function DisplacedCount(ds: seq<Departure>): nat {
    if ds == [] then 0 else (if ds[0].Displaced? then 1 else 0) + DisplacedCount(ds[1..])
  }

  lemma {:induction false} BytesAppend(a: seq<Departure>, b: seq<Departure>)
    ensures Bytes(a + b) == Bytes(a) + Bytes(b)
    decreases |a|
  {
    if a == [] {
      assert a + b == b;
    } else {
      assert (a + b)[1..] == a[1..] + b;
      BytesAppend(a[1..], b);
    }
  }

  lemma {:induction false} DeliveredAppend(a: seq<Departure>, b: seq<Departure>)
    ensures DeliveredBytes(a + b) == DeliveredBytes(a) + DeliveredBytes(b)
    decreases |a|
  {
    if a == [] {
      assert a + b == b;
    } else {
      assert (a + b)[0] == a[0] && (a + b)[1..] == a[1..] + b;
      DeliveredAppend(a[1..], b);
      var first := if a[0].Delivered? then [a[0].byte] else [];
      assert first + (DeliveredBytes(a[1..]) + DeliveredBytes(b)) == (first + DeliveredBytes(a[1..])) + DeliveredBytes(b);
    }
  }

  lemma {:induction false} DisplacedAppend(a: seq<Departure>, b: seq<Departure>)
    ensures DisplacedCount(a + b) == DisplacedCount(a) + DisplacedCount(b)
    decreases |a|
  {
    if a == [] {
      assert a + b == b;
    } else {
      assert (a + b)[1..] == a[1..] + b;
      DisplacedAppend(a[1..], b);
    }
  }

  lemma {:induction false} DeliveriesBytes(data: seq<Byte>)
    ensures Bytes(Deliveries(data)) == data && DeliveredBytes(Deliveries(data)) == data
    ensures DisplacedCount(Deliveries(data)) == 0
    decreases |data|
  {
    if data != [] {
      DeliveriesBytes(data[1..]);
      assert Deliveries(data)[1..] == Deliveries(data[1..]);
    }
  }

  /** What a write pushes out is displaced, never delivered, and only what does not fit. */
  lemma {:induction false} PushedOutDisplaced(buffer: seq<Byte>, data: seq<Byte>)
    requires |buffer| <= CAPACITY
    ensures |PushAll(buffer, data)| <= CAPACITY
    ensures DeliveredBytes(PushedOut(buffer, data)) == []
    ensures DisplacedCount(PushedOut(buffer, data)) == |PushedOut(buffer, data)|
    ensures |PushedOut(buffer, data)| == if |buffer| + |data| > CAPACITY then |buffer| + |data| - CAPACITY else 0
    decreases |data|
  {
    if data != [] {
      var rest := Push(buffer, data[0]);
      PushedOutDisplaced(rest, data[1..]);
      var out := PushedOut(rest, data[1..]);
      if |buffer| == CAPACITY {
        assert PushedOut(buffer, data)[1..] == out;
      } else {
        assert PushedOut(buffer, data) == out;
      }
    }
  }

  /** A write keeps every byte, in order, either in what it pushed out or in the buffer. */
  lemma {:induction false} PushAllAccounts(buffer: seq<Byte>, data: seq<Byte>)
    requires |buffer| <= CAPACITY
    ensures Bytes(PushedOut(buffer, data)) + PushAll(buffer, data) == buffer + data
    decreases |data|
  {
    if data == [] {
      assert buffer + data == buffer;
    } else {
      var rest := Push(buffer, data[0]);
      PushAllAccounts(rest, data[1..]);
      var out := PushedOut(rest, data[1..]);
      if |buffer| == CAPACITY {
        calc {
          Bytes(PushedOut(buffer, data)) + PushAll(buffer, data);
          { assert PushedOut(buffer, data) == [Displaced(buffer[0])] + out; }
          ([buffer[0]] + Bytes(out)) + PushAll(rest, data[1..]);
          [buffer[0]] + (Bytes(out) + PushAll(rest, data[1..]));
          [buffer[0]] + (rest + data[1..]);
          buffer + data;
        }
      } else {
        assert PushedOut(buffer, data) == out;
        assert rest + data[1..] == buffer + data;
      }
    }
  }

  /** After a write the buffer holds the last CAPACITY bytes of the old contents followed by the data. */
  lemma WriteKeepsTail(buffer: seq<Byte>, data: seq<Byte>)
    requires |buffer| <= CAPACITY
    ensures var all := buffer + data;
            PushAll(buffer, data) == if |all| <= CAPACITY then all else all[|all| - CAPACITY..]
  {
    PushAllAccounts(buffer, data);
    PushedOutDisplaced(buffer, data);
    var all := buffer + data;
    var out := Bytes(PushedOut(buffer, data));
    BytesLength(PushedOut(buffer, data));
    assert all[|out|..] == PushAll(buffer, data);
  }

  lemma {:induction false} BytesLength(ds: seq<Departure>)
    ensures |Bytes(ds)| == |ds|
    ensures |DeliveredBytes(ds)| + DisplacedCount(ds) == |ds|
    decreases |ds|
  {
    if ds != [] {
      BytesLength(ds[1..]);
    }
  }

  // ---------------------------------------------------------------- one call

  /** A read takes as many bytes as asked for off the front, none for a size of 0 or less, and all if there are fewer. */
  lemma ReadExactly(p: Pipe, size: int)
    ensures var (p', data) := Read(p, size);
            && data + p'.buffer == p.buffer
            && (size <= 0 ==> data == []) && (0 <= size <= |p.buffer| ==> |data| == size)
            && (size > |p.buffer| ==> p'.buffer == [])
            && p'.writeClosed == p.writeClosed && p'.readClosed == p.readClosed
  {
  }

  /** A write is refused with -32 when either end is closed; else it takes every byte and keeps the last 65536. */
  lemma WriteExactly(p: Pipe, data: seq<Byte>)
    requires |p.buffer| <= 65536
    ensures var (p', n) := Write(p, data);
            && (p.writeClosed || p.readClosed ==> (p', n) == (p, -32))
            && (!p.writeClosed && !p.readClosed ==>
                  var all := p.buffer + data;
                  n == |data| && !p'.writeClosed && !p'.readClosed &&
                  p'.buffer == if |all| <= 65536 then all else all[|all| - 65536..])
  {
    WriteKeepsTail(p.buffer, data);
  }

  lemma ClosedStep(t: Trace, op: Op) returns (data: seq<Byte>)
    requires t.pipe.writeClosed || t.pipe.readClosed
    ensures var t' := Step(t, op);
            && t'.accepted == t.accepted && (t'.pipe.writeClosed || t'.pipe.readClosed)
            && t'.received == t.received + data && data + t'.pipe.buffer == t.pipe.buffer
  {
    data := if op.OpRead? then Read(t.pipe, op.size).1 else [];
    if op.OpRead? {
      ReadExactly(t.pipe, op.size);
    }
  }

  /** Once an end is closed nothing is accepted any more, and what leaves the pipe goes, in order, to the readers. */
  lemma {:induction false} ClosedAcceptsNothing(t: Trace, ops: seq<Op>) returns (data: seq<Byte>)
    requires t.pipe.writeClosed || t.pipe.readClosed
    ensures var t' := Run(t, ops);
            && t'.accepted == t.accepted && (t'.pipe.writeClosed || t'.pipe.readClosed)
            && t'.received == t.received + data && data + t'.pipe.buffer == t.pipe.buffer
    decreases |ops|
  {
    if ops == [] {
      data := [];
    } else {
      var first := ClosedStep(t, ops[0]);
      var rest := ClosedAcceptsNothing(Step(t, ops[0]), ops[1..]);
      data := first + rest;
      Glue(t.received, first, rest, Run(t, ops).pipe.buffer);
    }
  }

  lemma Glue(r: seq<Byte>, x: seq<Byte>, y: seq<Byte>, b: seq<Byte>)
    ensures (r + x) + y == r + (x + y) && x + (y + b) == (x + y) + b
  {
  }

  // ---------------------------------------------------------------- the stream property

  /** Every accepted byte has departed or is buffered, in order; reads are exactly the deliveries. */
  ghost predicate Accounted(t: Trace) {
    && Bytes(t.departed) + t.pipe.buffer == t.accepted
    && t.received == DeliveredBytes(t.departed)
    && |t.pipe.buffer| <= CAPACITY
  }

  /** More departures that lead from one buffer to the next, with `extra` bytes accepted on the way. */
  lemma DepartMore(t: Trace, out: seq<Departure>, buffer: seq<Byte>, extra: seq<Byte>)
    requires Accounted(t) && Bytes(out) + buffer == t.pipe.buffer + extra
    ensures Bytes(t.departed + out) + buffer == t.accepted + extra
    ensures DeliveredBytes(t.departed + out) == t.received + DeliveredBytes(out)
  {
    BytesAppend(t.departed, out);
    DeliveredAppend(t.departed, out);
    calc {
      Bytes(t.departed + out) + buffer;
      Bytes(t.departed) + (Bytes(out) + buffer);
      Bytes(t.departed) + (t.pipe.buffer + extra);
      t.accepted + extra;
    }
  }

  lemma WriteAccounted(t: Trace, data: seq<Byte>)
    requires Accounted(t) && Write(t.pipe, data).1 != EPIPE
    ensures Accounted(Step(t, OpWrite(data)))
  {
    PushAllAccounts(t.pipe.buffer, data);
    PushedOutDisplaced(t.pipe.buffer, data);
    DepartMore(t, PushedOut(t.pipe.buffer, data), PushAll(t.pipe.buffer, data), data);
  }

  lemma ReadAccounted(t: Trace, size: int)
    requires Accounted(t)
    ensures Accounted(Step(t, OpRead(size)))
  {
    var (p, data) := Read(t.pipe, size);
    DeliveriesBytes(data);
    assert data + p.buffer == t.pipe.buffer + [];
    DepartMore(t, Deliveries(data), p.buffer, []);
    assert t.accepted + [] == t.accepted;
  }

  lemma StepAccounted(t: Trace, op: Op)
    requires Accounted(t)
    ensures Accounted(Step(t, op))
  {
    match op
    case OpWrite(data) =>
      if Write(t.pipe, data).1 != EPIPE {
        WriteAccounted(t, data);
      }
    case OpRead(size) => ReadAccounted(t, size);
    case _ =>
  }

  lemma {:induction false} RunAccounted(t: Trace, ops: seq<Op>)
    requires Accounted(t)
    ensures Accounted(Run(t, ops))
    decreases |ops|
  {
    if ops != [] {
      StepAccounted(t, ops[0]);
      RunAccounted(Step(t, ops[0]), ops[1..]);
    }
  }

  /**
   The stream property of every run from an empty pipe: the buffer is a suffix of the accepted bytes
   and at most 65536 long, the byte counts add up, and what readers got followed by the buffer is
   exactly what writers put in if and only if nothing was ever displaced.
   */
  lemma StreamProperty(ops: seq<Op>)
    ensures var t := Run(Start(), ops);
            && |t.pipe.buffer| <= CAPACITY
            && |t.pipe.buffer| <= |t.accepted| && t.pipe.buffer == t.accepted[|t.accepted| - |t.pipe.buffer|..]
            && |t.accepted| == |t.received| + DisplacedCount(t.departed) + |t.pipe.buffer|
            && (t.received + t.pipe.buffer == t.accepted <==> DisplacedCount(t.departed) == 0)
  {
    RunAccounted(Start(), ops);
    var t := Run(Start(), ops);
    BytesLength(t.departed);
    assert t.accepted[|Bytes(t.departed)|..] == t.pipe.buffer;
    if DisplacedCount(t.departed) == 0 {
      NothingDisplaced(t.departed);
    } else {
      assert |t.received + t.pipe.buffer| < |t.accepted|;
    }
  }

  lemma {:induction false} NothingDisplaced(ds: seq<Departure>)
    requires DisplacedCount(ds) == 0
    ensures DeliveredBytes(ds) == Bytes(ds)
    decreases |ds|
  {
    if ds != [] {
      NothingDisplaced(ds[1..]);
    }
  }

  /** Some accepted write of the run does not fit into the room left. */
  ghost predicate Overflows(t: Trace, ops: seq<Op>)
    decreases |ops|
  {
    ops != [] &&
    (|| (ops[0].OpWrite? && Write(t.pipe, ops[0].data).1 != EPIPE && |t.pipe.buffer| + |ops[0].data| > CAPACITY)
     || Overflows(Step(t, ops[0]), ops[1..]))
  }

  lemma {:induction false} DisplacedIffOverflow(t: Trace, ops: seq<Op>)
    requires Accounted(t)
    ensures DisplacedCount(Run(t, ops).departed) >= DisplacedCount(t.departed)
    ensures DisplacedCount(Run(t, ops).departed) > DisplacedCount(t.departed) <==> Overflows(t, ops)
    decreases |ops|
  {
    if ops != [] {
      var op := ops[0];
      StepAccounted(t, op);
      DisplacedIffOverflow(Step(t, op), ops[1..]);
      match op {
        case OpWrite(data) =>
          PushedOutDisplaced(t.pipe.buffer, data);
          DisplacedAppend(t.departed, PushedOut(t.pipe.buffer, data));
        case OpRead(size) =>
          DeliveriesBytes(Read(t.pipe, size).1);
          DisplacedAppend(t.departed, Deliveries(Read(t.pipe, size).1));
        case _ =>
      }
    }
  }

  /** The pipe is a lossless FIFO over exactly the runs in which no write overflows. */
  lemma LosslessExactly(ops: seq<Op>)
    ensures var t := Run(Start(), ops);
            t.received + t.pipe.buffer == t.accepted <==> !Overflows(Start(), ops)
  {
    StreamProperty(ops);
    DisplacedIffOverflow(Start(), ops);
  }
}
