/** The accept backlogs of core/network/af_unix/stream.h and core/network/af_inet/tcp.h: eight-byte socket numbers
    kept as records in a byte ring. */
module Backlog {
  import opened Fifo

  const RECORD: nat := 8

  /** A socket number by its eight bytes in memory. */
  type sockid = b: seq<byte> | |b| == 8 witness [0, 0, 0, 0, 0, 0, 0, 0]

  /** -1, what a pull from an empty backlog returns. */
  const NONE: sockid := [255, 255, 255, 255, 255, 255, 255, 255]
  const ZERO: sockid := [0, 0, 0, 0, 0, 0, 0, 0]

  ghost function Records(ids: seq<sockid>): (q: seq<byte>)
    ensures |q| == RECORD * |ids|
  {
    if ids == [] then [] else ids[0] + Records(ids[1..])
  }

  lemma {:induction false} RecordsAppend(ids: seq<sockid>, id: sockid)
    ensures Records(ids + [id]) == Records(ids) + id
  {
    if ids == [] {
      assert [id][1..] == [];
    } else {
      RecordsAppend(ids[1..], id);
      assert (ids + [id])[1..] == ids[1..] + [id];
    }
  }

  // ----- One push and one pull on the queued bytes -----

  ghost function Pushed(q: seq<byte>, cap: nat, id: sockid): (r: seq<byte>)
    requires |q| <= cap
    ensures |r| == Min(|q| + RECORD, cap)
  {
    QueueWrite(q, cap, id)
  }

  ghost function Pulled(q: seq<byte>): seq<byte> {
    q[Min(RECORD, |q|)..]
  }

  /** The number a pull returns: the bytes it got over a number preset to all ones. */
  ghost function Got(q: seq<byte>): (id: sockid) {
    if q == [] then NONE else q[..Min(RECORD, |q|)] + NONE[Min(RECORD, |q|)..]
  }

  class Listener {
    const ring: Ring<byte>

    ghost predicate Valid()
      reads this, ring
    {
      ring.Valid()
    }

    constructor (size: nat)
      requires size > 0
      ensures Valid() && fresh(ring) && fresh(ring.buf) && ring.buf.Length == size && ring.Contents() == []
    {
      ring := new Ring<byte>(size);
    }

    /** `push_backlog` and `push_backlog_stream`. */
    method Push(id: sockid) returns (written: nat)
      requires Valid()
      modifies ring, ring.buf
      ensures Valid() && ring.Contents() == Pushed(old(ring.Contents()), ring.buf.Length - 1, id)
      ensures written == Min(8, ring.buf.Length - 1 - |old(ring.Contents())|)
      ensures ring.Contents() == old(ring.Contents()) + id[..written]
    {
      written := ring.Write(id);
    }

    /** `pull_backlog` and `pull_backlog_stream`. */
    method Pull() returns (id: sockid)
      requires Valid()
      modifies ring
      ensures Valid() && ring.Contents() == Pulled(old(ring.Contents())) && id == Got(old(ring.Contents()))
      ensures var n := Min(8, |old(ring.Contents())|);
              old(ring.Contents()) == id[..n] + ring.Contents() && forall i | n <= i < 8 :: id[i] == 255
    {
      ghost var q := ring.Contents();
      id := NONE;
      var out := ring.Read(RECORD);
      assert out == q[..|out|] && ring.Contents() == q[|out|..];
      if |out| > 0 {
        id := out + id[|out|..];
      }
    }
  }

  // ----- Runs -----

  datatype Op = Push(id: sockid) | Pull

  /** The queued bytes after a run, and what its pulls returned. */
  ghost function Run(q: seq<byte>, cap: nat, ops: seq<Op>): (r: (seq<byte>, seq<sockid>))
    requires |q| <= cap
    ensures |r.0| <= cap
    decreases |ops|
  {
    if ops == [] then (q, [])
    else match ops[0]
      case Push(id) => Run(Pushed(q, cap, id), cap, ops[1..])
      case Pull => var r := Run(Pulled(q), cap, ops[1..]); (r.0, [Got(q)] + r.1)
  }

  /** The reference: a queue of socket numbers that refuses one that does not fit as a whole. */
  ghost function Reference(ids: seq<sockid>, cap: nat, ops: seq<Op>): (r: (seq<sockid>, seq<sockid>))
    decreases |ops|
  {
    if ops == [] then (ids, [])
    else match ops[0]
      case Push(id) => Reference(if RECORD * (|ids| + 1) <= cap then ids + [id] else ids, cap, ops[1..])
      case Pull =>
        var r := Reference(if ids == [] then [] else ids[1..], cap, ops[1..]);
        (r.0, [if ids == [] then NONE else ids[0]] + r.1)
  }

  /** No push of the run meets a backlog with one to seven free bytes. */
  ghost predicate NeverSplit(ids: seq<sockid>, cap: nat, ops: seq<Op>)
    decreases |ops|
  {
    ops == [] || match ops[0]
      case Push(id) =>
        var free := cap - RECORD * |ids|;
        && (free <= 0 || free >= RECORD)
        && NeverSplit(if free >= RECORD then ids + [id] else ids, cap, ops[1..])
      case Pull => NeverSplit(if ids == [] then [] else ids[1..], cap, ops[1..])
  }

  lemma PushWhole(ids: seq<sockid>, q: seq<byte>, cap: nat, id: sockid)
    requires q == Records(ids) && |q| <= cap
    ensures cap - |q| >= RECORD ==> Pushed(q, cap, id) == Records(ids + [id])
    ensures cap == |q| ==> Pushed(q, cap, id) == q
    ensures 0 < cap - |q| < RECORD ==> |Pushed(q, cap, id)| % RECORD != 0
  {
    RecordsAppend(ids, id);
    assert id[..RECORD] == id;
  }

  lemma PullWhole(ids: seq<sockid>, q: seq<byte>)
    requires q == Records(ids)
    ensures ids == [] ==> Got(q) == NONE && Pulled(q) == []
    ensures ids != [] ==> Got(q) == ids[0] && Pulled(q) == Records(ids[1..])
  {
    if ids != [] {
      assert q == ids[0] + Records(ids[1..]);
      assert q[..RECORD] + NONE[RECORD..] == ids[0];
    }
  }

  /** As long as no record is split, the byte ring is a first-in first-out queue of socket numbers. */
  lemma {:induction false} BacklogIsQueue(ids: seq<sockid>, q: seq<byte>, cap: nat, ops: seq<Op>)
    requires q == Records(ids) && |q| <= cap && NeverSplit(ids, cap, ops)
    ensures Run(q, cap, ops).0 == Records(Reference(ids, cap, ops).0)
    ensures Run(q, cap, ops).1 == Reference(ids, cap, ops).1
    decreases |ops|
  {
    if ops != [] {
      match ops[0]
      case Push(id) =>
        PushWhole(ids, q, cap, id);
        if cap - |q| >= RECORD {
          BacklogIsQueue(ids + [id], Records(ids + [id]), cap, ops[1..]);
        } else {
          BacklogIsQueue(ids, q, cap, ops[1..]);
        }
      case Pull =>
        PullWhole(ids, q);
        var rest := if ids == [] then [] else ids[1..];
        BacklogIsQueue(rest, Records(rest), cap, ops[1..]);
    }
  }

  // ----- When records can be split at all -----

  lemma {:induction false} WholeCapacityNeverSplits(ids: seq<sockid>, cap: nat, ops: seq<Op>)
    requires cap % RECORD == 0 && RECORD * |ids| <= cap
    ensures NeverSplit(ids, cap, ops)
    decreases |ops|
  {
    if ops != [] {
      match ops[0]
      case Push(id) =>
        assert (cap - RECORD * |ids|) % RECORD == 0;
        WholeCapacityNeverSplits(if cap - RECORD * |ids| >= RECORD then ids + [id] else ids, cap, ops[1..]);
      case Pull =>
        WholeCapacityNeverSplits(if ids == [] then [] else ids[1..], cap, ops[1..]);
    }
  }

  ghost function Pushes(k: nat): (ops: seq<Op>) {
    if k == 0 then [] else [Push(ZERO)] + Pushes(k - 1)
  }

  lemma {:induction false} FillingUp(q: seq<byte>, cap: nat, k: nat)
    requires |q| <= cap
    ensures |Run(q, cap, Pushes(k)).0| == Min(|q| + RECORD * k, cap)
    decreases k
  {
    if k > 0 {
      assert Pushes(k)[1..] == Pushes(k - 1);
      FillingUp(Pushed(q, cap, ZERO), cap, k - 1);
    }
  }

  ghost predicate WholeAfter(cap: nat, ops: seq<Op>) {
    |Run([], cap, ops).0| % RECORD == 0
  }

  lemma StaysWhole(cap: nat, ops: seq<Op>)
    requires cap % RECORD == 0
    ensures WholeAfter(cap, ops)
  {
    WholeCapacityNeverSplits([], cap, ops);
    BacklogIsQueue([], [], cap, ops);
  }

  lemma SplitsWhenFull(cap: nat, k: nat)
    requires cap % RECORD != 0 && RECORD * k > cap
    ensures !WholeAfter(cap, Pushes(k))
  {
    FillingUp([], cap, k);
  }

  /** Records stay whole in every run exactly when the ring's capacity, its size less one, is a multiple of eight. */
  lemma WholeInEveryRunExactly(cap: nat)
    ensures cap % RECORD == 0 <==> forall ops: seq<Op> :: WholeAfter(cap, ops)
  {
    if cap % RECORD == 0 {
      forall ops: seq<Op> ensures WholeAfter(cap, ops) {
        StaysWhole(cap, ops);
      }
    } else {
      SplitsWhenFull(cap, cap + 1);
    }
  }
}
