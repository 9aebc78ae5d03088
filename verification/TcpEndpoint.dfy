/** One ESTABLISHED socket of core/network/af_inet/tcp.h: a stop-and-wait sender and an
    exact-match receiver. The functions say what each handler does to the socket record;
    class `TcpSocket` performs the same steps in place. */
module TcpEndpoint {
  import opened Fifo

  const WIRE := 0x1_0000_0000       // sequence fields on the wire are 32 bits wide
  const TCP_MTU := 1500
  const TCP_MAX_RETRIES := 4
  const ENOTSOCK := 88

  /** A segment without SYN or FIN. Every segment an ESTABLISHED socket sends carries the ACK flag. */
  datatype Segment = Segment(seqNo: nat, ackNo: nat, payload: seq<byte>)

  /** A thread inside `tcp_copy_payload_and_send_established`. */
  datatype Caller = Sleeping(data: seq<byte>) | Awake(data: seq<byte>)

  datatype Endpoint = Endpoint(
    established: bool,
    seqLocal: nat,
    seqRemote: nat,
    blocked: bool,             // ack_est_blocked
    outgoing: seq<byte>,       // the first send_payload_len bytes of the send block
    retries: nat,
    callers: map<nat, Caller>, // by thread id
    queue: seq<byte>,          // contents of the receive ring
    capacity: nat)
  {
    predicate Sized() {
      |queue| <= capacity && |outgoing| <= TCP_MTU
    }
  }

  function Transmit(e: Endpoint): Segment {
    Segment(e.seqLocal % WIRE, e.seqRemote % WIRE, e.outgoing)
  }

  function PureAck(e: Endpoint): Segment {
    Segment(e.seqLocal % WIRE, e.seqRemote % WIRE, [])
  }

  /** The part of a send call before the sleep: the thread goes to sleep when a segment is in flight. */
  function Enter(e: Endpoint, tid: nat, data: seq<byte>): Endpoint {
    e.(callers := e.callers[tid := if e.blocked then Sleeping(data) else Awake(data)])
  }

  function Accepted(e: Endpoint, data: seq<byte>): seq<byte> {
    if e.established then data[..Min(|data|, TCP_MTU)] else []
  }

  /** The part of a send call after the sleep. */
  function Commit(e: Endpoint, tid: nat): Endpoint
    requires tid in e.callers && e.callers[tid].Awake?
  {
    var left := e.(callers := e.callers - {tid});
    if !e.established then left
    else left.(retries := 1, blocked := true, outgoing := Accepted(e, e.callers[tid].data))
  }

  function WakeAll(callers: map<nat, Caller>): map<nat, Caller> {
    map t | t in callers :: Awake(callers[t].data)
  }

  function ReceiveAck(e: Endpoint, ackNo: nat): Endpoint {
    if !e.established || !e.blocked || e.seqLocal + |e.outgoing| != ackNo then e
    else e.(seqLocal := e.seqLocal + |e.outgoing|, blocked := false, callers := WakeAll(e.callers))
  }

  /** Whether a segment's payload is taken, judged after its acknowledgement was processed. */
  predicate Takes(e: Endpoint, s: Segment) {
    e.established && s.payload != [] && (e.seqRemote == 0 || s.seqNo == e.seqRemote)
  }

  function Receive(e: Endpoint, s: Segment): Endpoint
    requires e.Sized()
  {
    var e1 := if e.established then ReceiveAck(e, s.ackNo) else e;
    if !Takes(e1, s) then e1
    else e1.(seqRemote := e1.seqRemote + |s.payload|, queue := QueueWrite(e1.queue, e1.capacity, s.payload))
  }

  function ReceiveReply(e: Endpoint, s: Segment): seq<Segment>
    requires e.Sized()
  {
    if Takes(e, s) then [PureAck(Receive(e, s))] else []
  }

  /** One pass of the kernel network thread over the socket. */
  function Retry(e: Endpoint): Endpoint {
    if !e.established || !e.blocked then e
    else if e.retries > TCP_MAX_RETRIES then e.(established := false)
    else e.(retries := e.retries + 1)
  }

  function RetrySegments(e: Endpoint): seq<Segment> {
    if e.established && e.blocked && e.retries <= TCP_MAX_RETRIES then [Transmit(e)] else []
  }

  /** The socket record with its receive ring and its send block. */
  class TcpSocket {
    var established: bool
    var seqLocal: nat
    var seqRemote: nat
    var ackEstBlocked: bool
    var sendPayloadLen: nat
    var sendRetryCount: nat
    var callers: map<nat, Caller>
    const sendBlock: array<byte>
    const ring: Ring<byte>

    ghost predicate Valid()
      reads this, ring, ring.buf
    {
      && ring.Valid() && ring.buf != sendBlock
      && sendBlock.Length == 4096 && sendPayloadLen <= TCP_MTU
    }

    ghost function View(): (e: Endpoint)
      requires Valid()
      reads this, ring, ring.buf, sendBlock
      ensures e.Sized()
    {
      Endpoint(established, seqLocal, seqRemote, ackEstBlocked, sendBlock[..sendPayloadLen], sendRetryCount,
               callers, ring.Contents(), ring.buf.Length - 1)
    }

    constructor (local: nat, remote: nat, ringSize: nat)
      requires ringSize > 0
      ensures Valid() && fresh(ring) && fresh(ring.buf) && fresh(sendBlock)
      ensures View() == Endpoint(true, local, remote, false, [], 0, map[], [], ringSize - 1)
    {
      established, seqLocal, seqRemote, ackEstBlocked := true, local, remote, false;
      sendPayloadLen, sendRetryCount, callers := 0, 0, map[];
      sendBlock := new byte[4096];
      ring := new Ring<byte>(ringSize);
    }

    method SendEnter(tid: nat, data: seq<byte>)
      requires Valid()
      modifies this
      ensures Valid() && View() == Enter(old(View()), tid, data)
      ensures callers == old(callers)[tid := if old(ackEstBlocked) then Sleeping(data) else Awake(data)]
      ensures View() == old(View()).(callers := callers)
    {
      if ackEstBlocked {
        callers := callers[tid := Sleeping(data)];
      } else {
        callers := callers[tid := Awake(data)];
      }
    }

    method SendCommit(tid: nat) returns (result: int, out: seq<Segment>)
      requires Valid() && tid in callers && callers[tid].Awake?
      modifies this, sendBlock
      ensures Valid() && View() == Commit(old(View()), tid)
      ensures callers == old(callers) - {tid}
      ensures !old(established) ==> result == -88 && out == [] && View() == old(View()).(callers := callers)
      ensures old(established) ==>
                var data := old(callers[tid].data);
                && result == (if |data| < 1500 then |data| else 1500)
                && View() == old(View()).(callers := callers, blocked := true, retries := 1, outgoing := data[..result])
                && out == [Segment(seqLocal % 0x1_0000_0000, seqRemote % 0x1_0000_0000, data[..result])]
    {
      var data := callers[tid].data;
      callers := callers - {tid};
      if !established {
        return -ENOTSOCK, [];
      }
      var len := if |data| > TCP_MTU then TCP_MTU else |data|;
      sendRetryCount := 1;
      ackEstBlocked := true;
      sendPayloadLen := len;
      for i := 0 to len
        modifies sendBlock
        invariant forall k :: 0 <= k < i ==> sendBlock[k] == data[k]
        invariant ring.Contents() == old(ring.Contents())
      {
        sendBlock[i] := data[i];
      }
      assert sendBlock[..len] == data[..len];
      return len, [Segment(seqLocal % WIRE, seqRemote % WIRE, sendBlock[..sendPayloadLen])];
    }

    method HandleAck(ackNo: nat)
      requires Valid()
      modifies this
      ensures Valid() && View() == ReceiveAck(old(View()), ackNo)
      ensures old(established && ackEstBlocked) && ackNo == old(seqLocal + sendPayloadLen) ==>
                && View() == old(View()).(seqLocal := ackNo, blocked := false, callers := callers)
                && callers.Keys == old(callers).Keys
                && forall t | t in callers :: callers[t] == Awake(old(callers)[t].data)
      ensures !(old(established && ackEstBlocked) && ackNo == old(seqLocal + sendPayloadLen)) ==> View() == old(View())
    {
      if !established || !ackEstBlocked {
        return;
      }
      if seqLocal + sendPayloadLen != ackNo {
        return;
      }
      seqLocal := seqLocal + sendPayloadLen;
      ackEstBlocked := false;
      callers := map t | t in callers :: Awake(callers[t].data);
    }

    /** The ESTABLISHED case of `handle_tcp_v4`. In any other state the segment is ignored here. */
    method HandleSegment(s: Segment) returns (out: seq<Segment>)
      requires Valid()
      modifies this, ring, ring.buf
      ensures Valid() && View() == Receive(old(View()), s)
      ensures out == ReceiveReply(old(View()), s)
      ensures var acked := old(established && ackEstBlocked) && s.ackNo == old(seqLocal + sendPayloadLen);
              && seqLocal == (if acked then s.ackNo else old(seqLocal))
              && ackEstBlocked == (old(ackEstBlocked) && !acked)
              && (!acked ==> callers == old(callers))
              && established == old(established) && sendPayloadLen == old(sendPayloadLen)
              && sendRetryCount == old(sendRetryCount)
      ensures var taken := old(established) && s.payload != [] && (old(seqRemote) == 0 || s.seqNo == old(seqRemote));
              && seqRemote == old(seqRemote) + (if taken then |s.payload| else 0)
              && ring.Contents() == old(ring.Contents()) + (if !taken then []
                   else s.payload[..Min(|s.payload|, ring.buf.Length - 1 - |old(ring.Contents())|)])
              && out == if taken then [Segment(seqLocal % 0x1_0000_0000, seqRemote % 0x1_0000_0000, [])] else []
    {
      if !established {
        return [];
      }
      HandleAck(s.ackNo);
      if |s.payload| != 0 {
        if seqRemote != 0 && s.seqNo != seqRemote {
          return [];
        }
        seqRemote := seqRemote + |s.payload|;
        var _ := ring.Write(s.payload);
        return [Segment(seqLocal % WIRE, seqRemote % WIRE, [])];
      }
      return [];
    }

    method RetryTick() returns (out: seq<Segment>)
      requires Valid()
      modifies this
      ensures Valid() && View() == Retry(old(View()))
      ensures out == RetrySegments(old(View()))
      ensures old(established && ackEstBlocked) ==>
                if old(sendRetryCount) > 4 then View() == old(View()).(established := false) && out == []
                else
                  && View() == old(View()).(retries := old(sendRetryCount) + 1)
                  && out == [Segment(seqLocal % 0x1_0000_0000, seqRemote % 0x1_0000_0000, sendBlock[..sendPayloadLen])]
      ensures !old(established && ackEstBlocked) ==> View() == old(View()) && out == []
    {
      if !established || !ackEstBlocked {
        return [];
      }
      if sendRetryCount > TCP_MAX_RETRIES {
        established := false;
        return [];
      }
      out := [Segment(seqLocal % WIRE, seqRemote % WIRE, sendBlock[..sendPayloadLen])];
      sendRetryCount := sendRetryCount + 1;
    }
  }
}
