/** The rings of libs/mem/mem.h. */
module Fifo {
  import opened Arithmetic

  type byte = b: int | 0 <= b < 256

  function Min(a: nat, b: nat): (m: nat) {
    if a < b then a else b
  }

  /** A write into a bounded queue keeps what fits. */
  function QueueWrite<T>(q: seq<T>, capacity: nat, input: seq<T>): seq<T>
    requires |q| <= capacity
  {
    q + input[..Min(|input|, capacity - |q|)]
  }

  /** The cell after `i`; the source writes `(i + 1) % size`. */
  function Next(i: nat, size: nat): (n: nat)
    requires i < size
    ensures n < size
    ensures n == if i + 1 < size then i + 1 else 0
  {
    (i + 1) % size
  }

  /** What a ring holds: the cells from `tail` up to, not including, `head`. */
  ghost function Window<T>(cells: seq<T>, tail: nat, head: nat): (q: seq<T>)
    requires tail < |cells| && head < |cells|
    ensures |q| < |cells|
    ensures q == [] <==> tail == head
    ensures |q| == |cells| - 1 <==> tail == Next(head, |cells|)
  {
    if tail <= head then cells[tail..head] else cells[tail..] + cells[..head]
  }

  lemma PushCell<T>(cells: seq<T>, tail: nat, head: nat, x: T)
    requires tail < |cells| && head < |cells|
    requires tail != Next(head, |cells|)
    ensures Window(cells[head := x], tail, Next(head, |cells|)) == Window(cells, tail, head) + [x]
  {}

  lemma PopCell<T>(cells: seq<T>, tail: nat, head: nat)
    requires tail < |cells| && head < |cells|
    requires tail != head
    ensures Window(cells, tail, head) == [cells[tail]] + Window(cells, Next(tail, |cells|), head)
  {}

  /** `fifo_read8`/`fifo_write8` and their 16-bit twins, over any cell type. */
  class Ring<T(0)> {
    const buf: array<T>
    var head: nat
    var tail: nat

    ghost predicate Valid()
      reads this
    {
      head < buf.Length && tail < buf.Length
    }

    ghost function Contents(): seq<T>
      requires Valid()
      reads this, buf
    {
      Window(buf[..], tail, head)
    }

    constructor (size: nat)
      requires size > 0
      ensures Valid() && fresh(buf) && buf.Length == size && Contents() == []
    {
      buf := new T[size];
      head, tail := 0, 0;
    }

    method Push(x: T)
      requires Valid() && tail != Next(head, buf.Length)
      modifies this`head, buf
      ensures Valid() && Contents() == old(Contents()) + [x]
    {
      PushCell(buf[..], tail, head, x);
      ghost var cells := buf[..][head := x];
      buf[head] := x;
      assert buf[..] == cells;
      head := Next(head, buf.Length);
    }

    method Write(input: seq<T>) returns (written: nat)
      requires Valid()
      modifies this, buf
      ensures Valid()
      ensures written == Min(|input|, buf.Length - 1 - |old(Contents())|)
      ensures Contents() == old(Contents()) + input[..written]
    {
      ghost var q := Contents();
      written := 0;
      while written < |input|
        invariant Valid() && written <= |input| && Contents() == q + input[..written]
      {
        if tail == Next(head, buf.Length) {
          return;
        }
        Push(input[written]);
        assert q + input[..written] + [input[written]] == q + input[..written + 1];
        written := written + 1;
      }
    }

    method Read(len: nat) returns (out: seq<T>)
      requires Valid()
      modifies this
      ensures Valid()
      ensures |out| == Min(len, |old(Contents())|)
      ensures old(Contents()) == out + Contents()
    {
      out := [];
      while |out| < len
        invariant Valid() && |out| <= len
        invariant old(Contents()) == out + Contents()
        decreases len - |out|
      {
        if tail == head {
          return;
        }
        PopCell(buf[..], tail, head);
        ghost var rest := Window(buf[..], Next(tail, buf.Length), head);
        assert out + ([buf[tail]] + rest) == out + [buf[tail]] + rest;
        out := out + [buf[tail]];
        tail := Next(tail, buf.Length);
        assert Contents() == rest;
      }
    }
  }

  // ----- Runs of a bounded queue -----

  datatype QueueOp<T> = WriteOp(input: seq<T>) | ReadOp(len: nat)

  /** A run's queue at the end, everything it accepted and everything it returned. */
  datatype QueueRun<T> = QueueRun(queue: seq<T>, accepted: seq<T>, returned: seq<T>)

  ghost function RunQueue<T>(q: seq<T>, capacity: nat, ops: seq<QueueOp<T>>): (r: QueueRun<T>)
    requires |q| <= capacity
    decreases |ops|
  {
    if ops == [] then QueueRun(q, [], [])
    else match ops[0]
      case WriteOp(input) =>
        var r := RunQueue(QueueWrite(q, capacity, input), capacity, ops[1..]);
        r.(accepted := input[..Min(|input|, capacity - |q|)] + r.accepted)
      case ReadOp(len) =>
        var r := RunQueue(q[Min(len, |q|)..], capacity, ops[1..]);
        r.(returned := q[..Min(len, |q|)] + r.returned)
  }

  /** Under any interleaving of reads and writes of any lengths, what comes out is what went in, in order, and what is
      still queued completes it. */
  lemma {:induction false} QueueConserves<T>(q: seq<T>, capacity: nat, ops: seq<QueueOp<T>>)
    requires |q| <= capacity
    ensures var r := RunQueue(q, capacity, ops); q + r.accepted == r.returned + r.queue && |r.queue| <= capacity
    decreases |ops|
  {
    if ops != [] {
      match ops[0]
      case WriteOp(input) =>
        var taken := input[..Min(|input|, capacity - |q|)];
        QueueConserves(q + taken, capacity, ops[1..]);
        var r := RunQueue(q + taken, capacity, ops[1..]);
        assert q + taken + r.accepted == q + (taken + r.accepted);
      case ReadOp(len) =>
        var n := Min(len, |q|);
        QueueConserves(q[n..], capacity, ops[1..]);
        var r := RunQueue(q[n..], capacity, ops[1..]);
        assert q[..n] + (q[n..] + r.accepted) == q + r.accepted;
        assert q[..n] + (r.returned + r.queue) == q[..n] + r.returned + r.queue;
    }
  }

  // ----- Rings of fixed-size units in a byte buffer -----

  /** The unit at index `i` of a byte buffer. */
  function UnitAt(b: seq<byte>, i: nat, u: nat): (x: seq<byte>)
    requires (i + 1) * u <= |b|
    ensures |x| == u
  {
    b[i * u..i * u + u]
  }

  ghost function UnitCells(b: seq<byte>, count: nat, u: nat): (cells: seq<seq<byte>>)
    requires |b| == count * u
    ensures |cells| == count
  {
    seq(count, i requires 0 <= i < count => ScaleUp(i + 1, count, u); UnitAt(b, i, u))
  }

  /** `memcpy` of one unit. */
  function PutUnit(b: seq<byte>, k: nat, x: seq<byte>): (r: seq<byte>)
    requires (k + 1) * |x| <= |b|
    ensures |r| == |b|
  {
    b[..k * |x|] + x + b[k * |x| + |x|..]
  }

  lemma PutOne(b: seq<byte>, count: nat, u: nat, k: nat, x: seq<byte>, r: seq<byte>, i: nat)
    requires |b| == count * u && k < count && |x| == u && i < count
    requires (k + 1) * u <= |b| && (i + 1) * u <= |b|
    requires r == PutUnit(b, k, x)
    ensures UnitAt(r, i, u) == if i == k then x else UnitAt(b, i, u)
  {
    if i < k {
      ScaleUp(i + 1, k, u);
    } else if i > k {
      ScaleUp(k + 1, i, u);
    }
  }

  lemma PutIsUpdate(b: seq<byte>, count: nat, u: nat, k: nat, x: seq<byte>, r: seq<byte>)
    requires |b| == count * u && k < count && |x| == u && (k + 1) * u <= |b| && r == PutUnit(b, k, x)
    ensures UnitCells(r, count, u) == UnitCells(b, count, u)[k := x]
  {
    forall i | 0 <= i < count ensures UnitCells(r, count, u)[i] == UnitCells(b, count, u)[k := x][i] {
      ScaleUp(i + 1, count, u);
      PutOne(b, count, u, k, x, r, i);
    }
  }

  /** `fifo_read_with_size`, `fifo_write_with_size` and, with units of three bytes, the 24-bit ring. */
  class UnitRing {
    const buf: array<byte>
    const count: nat
    const unit: nat
    var head: nat
    var tail: nat

    ghost predicate Valid()
      reads this
    {
      buf.Length == count * unit && head < count && tail < count
    }

    /** The queued units, as a ring of whole units would hold them. */
    ghost function Contents(): seq<seq<byte>>
      requires Valid()
      reads this, buf
    {
      Window(UnitCells(buf[..], count, unit), tail, head)
    }

    constructor (count: nat, unit: nat)
      requires count > 0
      ensures Valid() && fresh(buf) && this.count == count && this.unit == unit && Contents() == []
    {
      this.count, this.unit := count, unit;
      buf := new byte[count * unit];
      head, tail := 0, 0;
    }

    method Write(input: seq<byte>, n: nat) returns (written: nat)
      requires Valid() && |input| == n * unit
      modifies this, buf
      ensures Valid() && written == Min(n, count - 1 - |old(Contents())|)
      ensures Contents() == old(Contents()) + UnitCells(input, n, unit)[..written]
    {
      ghost var units := UnitCells(input, n, unit);
      written := 0;
      while written < n
        invariant Valid() && written <= n
        invariant Contents() == old(Contents()) + units[..written]
      {
        var next := Next(head, count);
        if next == tail {
          break;
        }
        ScaleUp(written + 1, n, unit);
        ScaleUp(head + 1, count, unit);
        var x := UnitAt(input, written, unit);
        PushUnit(x);
        written := written + 1;
      }
    }

    /** `memcpy` into the buffer. */
    method CopyIn(at: nat, x: seq<byte>)
      requires at + |x| <= buf.Length
      modifies buf
      ensures buf[..] == old(buf[..at]) + x + old(buf[at + |x|..])
    {
      for i := 0 to |x|
        invariant buf[..at] == old(buf[..at]) && buf[at..at + i] == x[..i] && buf[at + i..] == old(buf[at + i..])
      {
        buf[at + i] := x[i];
      }
    }

    method PushUnit(x: seq<byte>)
      requires Valid() && |x| == unit && tail != Next(head, count)
      modifies this, buf
      ensures Valid() && tail == old(tail) && Contents() == old(Contents()) + [x]
    {
      ScaleUp(head + 1, count, unit);
      PushCell(UnitCells(buf[..], count, unit), tail, head, x);
      ghost var was := buf[..];
      CopyIn(head * unit, x);
      PutIsUpdate(was, count, unit, head, x, buf[..]);
      head := Next(head, count);
    }

    method PopUnit() returns (x: seq<byte>)
      requires Valid() && tail != head
      modifies this`tail
      ensures Valid() && |x| == unit && old(Contents()) == [x] + Contents()
    {
      ScaleUp(tail + 1, count, unit);
      PopCell(UnitCells(buf[..], count, unit), tail, head);
      x := UnitAt(buf[..], tail, unit);
      tail := Next(tail, count);
    }

    /** Units copied out, followed by those still queued, make up `all`. */
    ghost predicate Taken(all: seq<seq<byte>>, out: seq<byte>, k: nat)
      reads this, buf
    {
      Valid() && |out| == k * unit && all == UnitCells(out, k, unit) + Contents()
    }

    method TakeUnit(before: seq<byte>, ghost all: seq<seq<byte>>, ghost k: nat) returns (out: seq<byte>)
      requires Taken(all, before, k) && tail != head
      modifies this`tail
      ensures Taken(all, out, k + 1)
    {
      ghost var cells := UnitCells(before, k, unit);
      var x := PopUnit();
      out := before + x;
      AppendUnit(before, k, unit, x, out);
      assert cells + ([x] + Contents()) == cells + [x] + Contents();
    }

    method Read(n: nat) returns (out: seq<byte>, read: nat)
      requires Valid()
      modifies this`tail
      ensures Valid() && read == Min(n, |old(Contents())|) && |out| == read * unit
      ensures old(Contents()) == UnitCells(out, read, unit) + Contents()
    {
      out, read := [], 0;
      ghost var all := Contents();
      while read < n
        invariant read <= n && Taken(all, out, read)
        decreases n - read
      {
        if tail == head {
          break;
        }
        out := TakeUnit(out, all, read);
        read := read + 1;
      }
    }
  }

  lemma AppendAt(b: seq<byte>, n: nat, u: nat, x: seq<byte>, r: seq<byte>, i: nat)
    requires |b| == n * u && |x| == u && r == b + x && i <= n && (i + 1) * u <= |r|
    requires i < n ==> (i + 1) * u <= |b|
    ensures UnitAt(r, i, u) == if i < n then UnitAt(b, i, u) else x
  {
    ScaleUp(i, n, u);
  }

  lemma AppendUnit(b: seq<byte>, n: nat, u: nat, x: seq<byte>, r: seq<byte>)
    requires |b| == n * u && |x| == u && r == b + x
    ensures |r| == (n + 1) * u && UnitCells(r, n + 1, u) == UnitCells(b, n, u) + [x]
  {
    ScaleUp(n, n + 1, u);
    forall i | 0 <= i < n + 1 ensures UnitCells(r, n + 1, u)[i] == (UnitCells(b, n, u) + [x])[i] {
      ScaleUp(i + 1, n + 1, u);
      if i < n {
        ScaleUp(i + 1, n, u);
      }
      AppendAt(b, n, u, x, r, i);
    }
  }
}
