/** Two agreeing ESTABLISHED endpoints over a network that drops, duplicates, delays and
    reorders. The network never forgets a segment: any segment ever sent may be delivered any
    number of times, in any order, or never. Both directions carry data at once. */
module TcpProtocol {
  import opened Fifo
  import opened TcpEndpoint

  /** An endpoint with the history the theorems speak about. */
  datatype Peer = Peer(
    ep: Endpoint,
    accepted: seq<byte>,  // every byte a send call reported as sent
    received: seq<byte>,  // every byte ever appended to the receive ring
    consumed: seq<byte>,  // every byte the application read from it
    dropped: nat,         // bytes acknowledged without fitting in the ring
    sent: set<Segment>)

  datatype System = System(a: Peer, b: Peer)

  datatype Action =
    | SendEnter(tid: nat, data: seq<byte>)
    | SendCommit(tid: nat)
    | Deliver(s: Segment)
    | RetryTick
    | AppRead(n: nat)

  datatype Event = AtA(act: Action) | AtB(act: Action)

  function AsSet(s: seq<Segment>): set<Segment> {
    set x | x in s
  }

  /** What an action does to the peer it happens at; an action that is not enabled does nothing. */
  function Act(p: Peer, network: set<Segment>, act: Action): (r: Peer)
    requires p.ep.Sized()
    ensures r.ep.Sized()
  {
    match act
    case SendEnter(tid, data) =>
      if tid in p.ep.callers then p else p.(ep := Enter(p.ep, tid, data))
    case SendCommit(tid) =>
      if tid !in p.ep.callers || !p.ep.callers[tid].Awake? then p
      else
        var e := Commit(p.ep, tid);
        p.(ep := e,
           accepted := p.accepted + Accepted(p.ep, p.ep.callers[tid].data),
           sent := p.sent + (if p.ep.established then {Transmit(e)} else {}))
    case Deliver(s) =>
      if s !in network then p
      else
        var e := Receive(p.ep, s);
        var kept := |e.queue| - |p.ep.queue|;
        p.(ep := e,
           received := p.received + e.queue[|p.ep.queue|..],
           dropped := p.dropped + (if Takes(p.ep, s) then |s.payload| - kept else 0),
           sent := p.sent + AsSet(ReceiveReply(p.ep, s)))
    case RetryTick =>
      p.(ep := Retry(p.ep), sent := p.sent + AsSet(RetrySegments(p.ep)))
    case AppRead(n) =>
      var k := Min(n, |p.ep.queue|);
      p.(ep := p.ep.(queue := p.ep.queue[k..]), consumed := p.consumed + p.ep.queue[..k])
  }

  predicate Sized(s: System) {
    s.a.ep.Sized() && s.b.ep.Sized()
  }

  function Step(s: System, ev: Event): (r: System)
    requires Sized(s)
    ensures Sized(r)
  {
    match ev
    case AtA(act) => System(Act(s.a, s.b.sent, act), s.b)
    case AtB(act) => System(s.a, Act(s.b, s.a.sent, act))
  }

  function Run(s: System, run: seq<Event>): (r: System)
    requires Sized(s)
    ensures Sized(r)
  {
    if run == [] then s else Step(Run(s, run[..|run| - 1]), run[|run| - 1])
  }

  /** Two sockets right after the handshake: each expects the other's next sequence number. */
  ghost predicate Fresh(p: Peer) {
    && p.ep.established && !p.ep.blocked && p.ep.callers == map[] && p.ep.Sized() && p.ep.queue == []
    && p.accepted == [] && p.received == [] && p.consumed == [] && p.dropped == 0 && p.sent == {}
  }

  ghost predicate Agreeing(s: System) {
    && Fresh(s.a) && Fresh(s.b)
    && s.a.ep.seqLocal == s.b.ep.seqRemote && s.b.ep.seqLocal == s.a.ep.seqRemote
  }

  /** At most one thread at each end sends on the socket. */
  predicate OneSender(run: seq<Event>, tidA: nat, tidB: nat) {
    forall i | 0 <= i < |run| :: By(run[i].act, if run[i].AtA? then tidA else tidB)
  }

  /** The sending thread an action belongs to is `tid`, if it belongs to one. */
  predicate By(act: Action, tid: nat) {
    (act.SendEnter? || act.SendCommit?) ==> act.tid == tid
  }

  /** A commit that is carried out finds no bytes in flight. With one sending thread it always does. */
  predicate Clean(p: Peer, act: Action) {
    (act.SendCommit? && act.tid in p.ep.callers && p.ep.callers[act.tid].Awake? && p.ep.established) ==>
      !p.ep.blocked || p.ep.outgoing == []
  }

  /** Every commit at A, respectively at B, during the run is clean, however many threads send. */
  predicate CleanAtA(s: System, run: seq<Event>)
    requires Sized(s)
  {
    run == [] ||
    var before, last := run[..|run| - 1], run[|run| - 1];
    CleanAtA(s, before) && (last.AtA? ==> Clean(Run(s, before).a, last.act))
  }

  predicate CleanAtB(s: System, run: seq<Event>)
    requires Sized(s)
  {
    run == [] ||
    var before, last := run[..|run| - 1], run[|run| - 1];
    CleanAtB(s, before) && (last.AtB? ==> Clean(Run(s, before).b, last.act))
  }

  // ----- The inductive invariant of one direction -----

  ghost function InFlight(e: Endpoint): nat {
    if e.blocked then |e.outgoing| else 0
  }

  /** A data segment on the wire lies wholly below the sender's window, or is the one in flight. */
  ghost predicate Genuine(snd: Peer, base: nat, s: Segment, pos: nat) {
    && base <= pos && s.seqNo == pos % WIRE
    && (|| pos + |s.payload| <= snd.ep.seqLocal
        || (snd.ep.blocked && pos == snd.ep.seqLocal && s.payload == snd.ep.outgoing))
  }

  /** An acknowledgement never runs ahead of what was taken. */
  ghost predicate Earned(rcv: Peer, s: Segment, upTo: nat) {
    upTo <= rcv.ep.seqRemote && s.ackNo == upTo % WIRE
  }

  ghost predicate WireOk(snd: Peer, rcv: Peer, base: nat) {
    && (forall s | s in snd.sent && s.payload != [] :: exists pos: nat :: Genuine(snd, base, s, pos))
    && (forall s | s in rcv.sent :: exists upTo: nat :: Earned(rcv, s, upTo))
  }

  ghost predicate StreamOk(snd: Peer, rcv: Peer, base: nat) {
    && base <= snd.ep.seqLocal
    && |snd.accepted| == snd.ep.seqLocal - base + InFlight(snd.ep)
    && (snd.ep.blocked ==> snd.accepted[snd.ep.seqLocal - base..] == snd.ep.outgoing)
    && (rcv.ep.seqRemote == snd.ep.seqLocal || rcv.ep.seqRemote == snd.ep.seqLocal + InFlight(snd.ep))
    && |rcv.received| + rcv.dropped == rcv.ep.seqRemote - base
    && (rcv.dropped == 0 ==> rcv.received == snd.accepted[..rcv.ep.seqRemote - base])
  }

  ghost predicate Direction(snd: Peer, rcv: Peer, base: nat) {
    && snd.ep.Sized() && rcv.ep.Sized()
    && StreamOk(snd, rcv, base) && WireOk(snd, rcv, base)
  }

  /** One sender per socket means a thread that is awake finds no segment in flight. */
  ghost predicate Alone(p: Peer, tid: nat) {
    && p.ep.callers.Keys <= {tid}
    && (tid in p.ep.callers && p.ep.callers[tid].Awake? ==> !p.ep.blocked)
  }

  // ----- Each action keeps it, at either end -----

  lemma SenderCommits(snd: Peer, rcv: Peer, base: nat, tid: nat)
    requires Direction(snd, rcv, base) && Clean(snd, SendCommit(tid))
    requires tid in snd.ep.callers && snd.ep.callers[tid].Awake?
    ensures Direction(Act(snd, rcv.sent, SendCommit(tid)), rcv, base)
  {
    var snd' := Act(snd, rcv.sent, SendCommit(tid));
    assert snd'.accepted[..rcv.ep.seqRemote - base] == snd.accepted[..rcv.ep.seqRemote - base];
    forall s | s in snd'.sent && s.payload != []
      ensures exists pos: nat :: Genuine(snd', base, s, pos)
    {
      if s in snd.sent {
        var pos: nat :| Genuine(snd, base, s, pos);
        assert Genuine(snd', base, s, pos);
      } else {
        assert Genuine(snd', base, s, snd'.ep.seqLocal);
      }
    }
  }

  lemma SenderGetsSegment(snd: Peer, rcv: Peer, base: nat, s: Segment)
    requires Direction(snd, rcv, base) && s in rcv.sent
    ensures Direction(Act(snd, rcv.sent, Deliver(s)), rcv, base)
  {
    var snd' := Act(snd, rcv.sent, Deliver(s));
    var upTo: nat :| Earned(rcv, s, upTo);
    assert upTo % WIRE <= upTo;
    forall x | x in snd'.sent && x.payload != []
      ensures exists pos: nat :: Genuine(snd', base, x, pos)
    {
      var pos: nat :| Genuine(snd, base, x, pos);
      assert Genuine(snd', base, x, pos);
    }
  }

  lemma SenderRetries(snd: Peer, rcv: Peer, base: nat)
    requires Direction(snd, rcv, base)
    ensures Direction(Act(snd, rcv.sent, RetryTick), rcv, base)
  {
    var snd' := Act(snd, rcv.sent, RetryTick);
    forall s | s in snd'.sent && s.payload != []
      ensures exists pos: nat :: Genuine(snd', base, s, pos)
    {
      if s in snd.sent {
        var pos: nat :| Genuine(snd, base, s, pos);
        assert Genuine(snd', base, s, pos);
      } else {
        assert Genuine(snd', base, s, snd'.ep.seqLocal);
      }
    }
  }

  /** The sequence number of a segment that is taken is the in-flight one, wire truncation or not. */
  lemma TakenIsInFlight(snd: Peer, rcv: Peer, base: nat, s: Segment)
    requires Direction(snd, rcv, base) && s in snd.sent && Takes(rcv.ep, s)
    ensures snd.ep.blocked && s.payload == snd.ep.outgoing && rcv.ep.seqRemote == snd.ep.seqLocal
  {
    var pos: nat :| Genuine(snd, base, s, pos);
    assert pos <= snd.ep.seqLocal <= rcv.ep.seqRemote;
    if rcv.ep.seqRemote != 0 {
      assert pos % WIRE == rcv.ep.seqRemote && pos % WIRE <= pos;
    }
  }

  /** What taking a payload adds to the history: the bytes that fit are received, the rest is dropped. */
  lemma TakingAdds(p: Peer, network: set<Segment>, s: Segment, q: Peer, n: nat)
    requires p.ep.Sized() && s in network && Takes(p.ep, s) && q == Act(p, network, Deliver(s))
    requires n == Min(|s.payload|, p.ep.capacity - |p.ep.queue|)
    ensures q.received == p.received + s.payload[..n] && q.dropped == p.dropped + |s.payload| - n
    ensures q.ep.seqRemote == p.ep.seqRemote + |s.payload|
  {
    assert (p.ep.queue + s.payload[..n])[|p.ep.queue|..] == s.payload[..n];
  }

  /** Taking the segment in flight feeds the receiver the next bytes of the stream. */
  lemma SegmentFeeds(snd: Peer, rcv: Peer, base: nat, s: Segment, rcv': Peer)
    requires StreamOk(snd, rcv, base) && rcv.ep.Sized() && s in snd.sent && rcv' == Act(rcv, snd.sent, Deliver(s))
    requires Takes(rcv.ep, s) && snd.ep.blocked && s.payload == snd.ep.outgoing && rcv.ep.seqRemote == snd.ep.seqLocal
    ensures StreamOk(snd, rcv', base)
  {
    var pos, n := rcv.ep.seqRemote - base, Min(|s.payload|, rcv.ep.capacity - |rcv.ep.queue|);
    TakingAdds(rcv, snd.sent, s, rcv', n);
    assert snd.accepted == snd.accepted[..pos] + snd.ep.outgoing;
    assert n == |s.payload| ==> s.payload[..n] == s.payload;
  }

  lemma ReceiverGetsSegment(snd: Peer, rcv: Peer, base: nat, s: Segment)
    requires Direction(snd, rcv, base) && s in snd.sent
    ensures Direction(snd, Act(rcv, snd.sent, Deliver(s)), base)
  {
    var rcv' := Act(rcv, snd.sent, Deliver(s));
    if Takes(rcv.ep, s) {
      TakenIsInFlight(snd, rcv, base, s);
      SegmentFeeds(snd, rcv, base, s, rcv');
    }
    forall x | x in rcv'.sent
      ensures exists upTo: nat :: Earned(rcv', x, upTo)
    {
      if x in rcv.sent {
        var upTo: nat :| Earned(rcv, x, upTo);
        assert Earned(rcv', x, upTo);
      } else {
        assert Earned(rcv', x, rcv'.ep.seqRemote);
      }
    }
  }

  lemma ReceiverSends(snd: Peer, rcv: Peer, base: nat, act: Action)
    requires Direction(snd, rcv, base) && (act.SendCommit? || act.RetryTick?)
    ensures Direction(snd, Act(rcv, snd.sent, act), base)
  {
    var rcv' := Act(rcv, snd.sent, act);
    forall x | x in rcv'.sent
      ensures exists upTo: nat :: Earned(rcv', x, upTo)
    {
      if x in rcv.sent {
        var upTo: nat :| Earned(rcv, x, upTo);
        assert Earned(rcv', x, upTo);
      } else {
        assert Earned(rcv', x, rcv'.ep.seqRemote);
      }
    }
  }

  lemma SenderActs(snd: Peer, rcv: Peer, base: nat, act: Action)
    requires Direction(snd, rcv, base) && Clean(snd, act)
    ensures Direction(Act(snd, rcv.sent, act), rcv, base)
  {
    var snd' := Act(snd, rcv.sent, act);
    match act
    case SendCommit(t) =>
      if t in snd.ep.callers && snd.ep.callers[t].Awake? { SenderCommits(snd, rcv, base, t); }
    case Deliver(s) =>
      if s in rcv.sent { SenderGetsSegment(snd, rcv, base, s); }
    case RetryTick => SenderRetries(snd, rcv, base);
    case _ =>
      assert forall s, pos: nat :: Genuine(snd, base, s, pos) <==> Genuine(snd', base, s, pos);
  }

  lemma ReceiverActs(snd: Peer, rcv: Peer, base: nat, act: Action)
    requires Direction(snd, rcv, base)
    ensures Direction(snd, Act(rcv, snd.sent, act), base)
  {
    var rcv' := Act(rcv, snd.sent, act);
    match act
    case Deliver(s) =>
      if s in snd.sent { ReceiverGetsSegment(snd, rcv, base, s); }
    case SendCommit(_) => ReceiverSends(snd, rcv, base, act);
    case RetryTick => ReceiverSends(snd, rcv, base, act);
    case _ =>
      assert forall s, upTo: nat :: Earned(rcv, s, upTo) <==> Earned(rcv', s, upTo);
  }

  /** Every run keeps what A sends to B, whatever B itself commits. */
  lemma {:induction false} RunKeepsDirection(s: System, run: seq<Event>, base: nat)
    requires Direction(s.a, s.b, base) && CleanAtA(s, run)
    ensures Direction(Run(s, run).a, Run(s, run).b, base)
  {
    if run != [] {
      var before := run[..|run| - 1];
      RunKeepsDirection(s, before, base);
      var r := Run(s, before);
      match run[|run| - 1]
      case AtA(act) => SenderActs(r.a, r.b, base, act);
      case AtB(act) => ReceiverActs(r.a, r.b, base, act);
    }
  }

  function Mirror(run: seq<Event>): seq<Event> {
    seq(|run|, i requires 0 <= i < |run| => if run[i].AtA? then AtB(run[i].act) else AtA(run[i].act))
  }

  /** The two ends are interchangeable, so every statement about A to B is one about B to A. */
  lemma {:induction false} EndsAreInterchangeable(s: System, run: seq<Event>)
    requires Sized(s)
    ensures Run(System(s.b, s.a), Mirror(run)) == System(Run(s, run).b, Run(s, run).a)
    ensures CleanAtA(System(s.b, s.a), Mirror(run)) <==> CleanAtB(s, run)
  {
    if run != [] {
      var before := run[..|run| - 1];
      EndsAreInterchangeable(s, before);
      assert Mirror(run)[..|run| - 1] == Mirror(before);
    }
  }

  ghost predicate Inv(s: System, baseA: nat, baseB: nat) {
    Direction(s.a, s.b, baseA) && Direction(s.b, s.a, baseB)
  }

  lemma RunKeepsInv(s: System, run: seq<Event>, baseA: nat, baseB: nat)
    requires Inv(s, baseA, baseB) && CleanAtA(s, run) && CleanAtB(s, run)
    ensures Inv(Run(s, run), baseA, baseB)
  {
    RunKeepsDirection(s, run, baseA);
    EndsAreInterchangeable(s, run);
    RunKeepsDirection(System(s.b, s.a), Mirror(run), baseB);
  }

  // ----- One sending thread per socket makes every run clean -----

  lemma StaysAlone(p: Peer, network: set<Segment>, act: Action, tid: nat)
    requires p.ep.Sized() && Alone(p, tid) && By(act, tid)
    ensures Alone(Act(p, network, act), tid) && Clean(p, act)
  {}

  lemma {:induction false} OneSenderIsClean(s: System, run: seq<Event>, tidA: nat, tidB: nat)
    requires Sized(s) && Alone(s.a, tidA) && Alone(s.b, tidB) && OneSender(run, tidA, tidB)
    ensures CleanAtA(s, run) && CleanAtB(s, run) && Alone(Run(s, run).a, tidA) && Alone(Run(s, run).b, tidB)
  {
    if run != [] {
      var before, last := run[..|run| - 1], run[|run| - 1];
      OneSenderIsClean(s, before, tidA, tidB);
      var r := Run(s, before);
      if last.AtA? {
        StaysAlone(r.a, r.b.sent, last.act, tidA);
      } else {
        StaysAlone(r.b, r.a.sent, last.act, tidB);
      }
    }
  }

  // ----- What the invariant gives the two applications -----

  /** A delivery whose payload is acknowledged although the ring cannot hold all of it. */
  predicate Overflows(p: Peer, network: set<Segment>, act: Action) {
    act.Deliver? && act.s in network && Takes(p.ep, act.s) && p.ep.capacity < |p.ep.queue| + |act.s.payload|
  }

  /** Every payload B takes during the run finds room in B's ring. */
  predicate RoomAtB(s: System, run: seq<Event>)
    requires Sized(s)
  {
    run == [] ||
    var before, last := run[..|run| - 1], run[|run| - 1];
    var r := Run(s, before);
    RoomAtB(s, before) && !(last.AtB? && Overflows(r.b, r.a.sent, last.act))
  }

  lemma DropsExactlyOnOverflow(p: Peer, network: set<Segment>, act: Action)
    requires p.ep.Sized()
    ensures Act(p, network, act).dropped == 0 <==> p.dropped == 0 && !Overflows(p, network, act)
  {}

  lemma {:induction false} DroppedMeansOverflow(s: System, run: seq<Event>)
    requires Sized(s) && s.b.dropped == 0
    ensures Run(s, run).b.dropped == 0 <==> RoomAtB(s, run)
  {
    if run != [] {
      var before := run[..|run| - 1];
      DroppedMeansOverflow(s, before);
      var r, last := Run(s, before), run[|run| - 1];
      DropsExactlyOnOverflow(r.b, r.a.sent, last.act);
    }
  }

  /** Whatever the network does, whatever B commits and however many threads send, as long as A's commits are clean:
      B's ring is fed exactly a prefix of A's byte stream if and only if no taken segment ever met a ring without room;
      and once A is unblocked, all of it arrived. By `EndsAreInterchangeable` the same holds from B to A. */
  lemma StopAndWaitSafety(s: System, run: seq<Event>)
    requires Agreeing(s) && CleanAtA(s, run)
    ensures var r, base := Run(s, run), s.a.ep.seqLocal;
            && (r.b.ep.seqRemote == r.a.ep.seqLocal || r.b.ep.seqRemote == r.a.ep.seqLocal + InFlight(r.a.ep))
            && base <= r.b.ep.seqRemote <= base + |r.a.accepted|
            && (r.b.received == r.a.accepted[..r.b.ep.seqRemote - base] <==> RoomAtB(s, run))
            && (!r.a.ep.blocked ==> r.b.ep.seqRemote == base + |r.a.accepted|)
  {
    RunKeepsDirection(s, run, s.a.ep.seqLocal);
    DroppedMeansOverflow(s, run);
  }

  // ----- What an unclean commit costs -----

  /** Bytes a send call reported as sent that are neither acknowledged nor in flight, counted from any start. */
  ghost function Overwritten(p: Peer): int {
    |p.accepted| - p.ep.seqLocal - InFlight(p.ep)
  }

  lemma OverwritesExactly(p: Peer, network: set<Segment>, act: Action)
    requires p.ep.Sized()
    ensures Overwritten(Act(p, network, act)) >= Overwritten(p)
    ensures Overwritten(Act(p, network, act)) == Overwritten(p) <==> Clean(p, act)
  {}

  /** Over every run, with any number of senders: the count never shrinks, and every accepted byte is acknowledged or in
      flight at the end if and only if every commit was clean. */
  lemma {:induction false} NothingOverwrittenExactly(s: System, run: seq<Event>)
    requires Sized(s)
    ensures Overwritten(Run(s, run).a) >= Overwritten(s.a)
    ensures Overwritten(Run(s, run).a) == Overwritten(s.a) <==> CleanAtA(s, run)
  {
    if run != [] {
      var before, last := run[..|run| - 1], run[|run| - 1];
      NothingOverwrittenExactly(s, before);
      var r := Run(s, before);
      OverwritesExactly(r.a, r.b.sent, last.act);
    }
  }

  /** A duplicate of a segment already taken is neither appended again nor acknowledged again. */
  lemma DuplicateIsSilent(snd: Peer, rcv: Peer, base: nat, s: Segment)
    requires Direction(snd, rcv, base) && s in snd.sent && s.payload != []
    requires rcv.ep.seqRemote == snd.ep.seqLocal + InFlight(snd.ep)
    ensures ReceiveReply(rcv.ep, s) == []
    ensures Act(rcv, snd.sent, Deliver(s)).received == rcv.received
  {
    if Takes(rcv.ep, s) {
      TakenIsInFlight(snd, rcv, base, s);
    }
  }

  ghost predicate Stalled(p: Peer, seqLocal: nat, outgoing: seq<byte>, accepted: seq<byte>) {
    p.ep.blocked && p.ep.seqLocal == seqLocal && p.ep.outgoing == outgoing && p.accepted == accepted
  }

  lemma StaysStalled(s: System, ev: Event, tidA: nat)
    requires Sized(s) && (ev.AtA? ==> Clean(s.a, ev.act))
    requires s.a.ep.outgoing != [] || (Alone(s.a, tidA) && (ev.AtA? ==> By(ev.act, tidA)))
    requires forall x | x in s.b.sent :: x.ackNo < WIRE
    requires s.a.ep.blocked && s.a.ep.seqLocal + |s.a.ep.outgoing| >= WIRE
    ensures Stalled(Step(s, ev).a, s.a.ep.seqLocal, s.a.ep.outgoing, s.a.accepted)
  {}

  /** Nothing replaces what A has in flight: commits are clean and it has bytes, or one thread sends at each end. */
  ghost predicate Unreplaced(s: System, run: seq<Event>, tidA: nat, tidB: nat)
    requires Sized(s)
  {
    || (s.a.ep.outgoing != [] && CleanAtA(s, run))
    || (Alone(s.a, tidA) && Alone(s.b, tidB) && OneSender(run, tidA, tidB))
  }

  /** Sequence fields are cut to 32 bits but compared with 64-bit counters. Safety survives that;
      progress does not: a segment that ends at or beyond 2^32 is never acknowledged. */
  lemma {:induction false} StalledForever(s: System, run: seq<Event>, base: nat, tidA: nat, tidB: nat)
    requires Direction(s.a, s.b, base) && Unreplaced(s, run, tidA, tidB)
    requires s.a.ep.blocked && s.a.ep.seqLocal + |s.a.ep.outgoing| >= WIRE
    ensures Stalled(Run(s, run).a, s.a.ep.seqLocal, s.a.ep.outgoing, s.a.accepted)
  {
    if run != [] {
      var before := run[..|run| - 1];
      StalledForever(s, before, base, tidA, tidB);
      if Alone(s.a, tidA) && Alone(s.b, tidB) && OneSender(run, tidA, tidB) {
        OneSenderIsClean(s, run, tidA, tidB);
        OneSenderIsClean(s, before, tidA, tidB);
      }
      RunKeepsDirection(s, before, base);
      var r := Run(s, before);
      forall x | x in r.b.sent ensures x.ackNo < WIRE {
        var upTo: nat :| Earned(r.b, x, upTo);
      }
      StaysStalled(r, run[|run| - 1], tidA);
    }
  }

  // ----- The other half: below 2^32 an acknowledgement can still arrive -----

  ghost predicate Carries(p: Peer, x: Segment) {
    x in p.sent && x.seqNo == p.ep.seqLocal % WIRE && x.payload == p.ep.outgoing
  }

  ghost predicate Acknowledges(p: Peer, x: Segment) {
    x in p.sent && x.ackNo == p.ep.seqRemote % WIRE
  }

  /** What is in flight was sent, and so was an acknowledgement of all that was taken. */
  ghost predicate Sent(p: Peer, expected: nat) {
    && (p.ep.blocked ==> exists x :: Carries(p, x))
    && expected <= p.ep.seqRemote && (p.ep.seqRemote > expected ==> exists x :: Acknowledges(p, x))
  }

  lemma StaysSent(p: Peer, network: set<Segment>, act: Action, expected: nat)
    requires p.ep.Sized() && Sent(p, expected)
    ensures Sent(Act(p, network, act), expected)
  {
    var q := Act(p, network, act);
    if q.ep.blocked {
      if act.SendCommit? && q != p && q.ep.established {
        assert Carries(q, Transmit(q.ep));
      } else {
        var x :| Carries(p, x);
        assert Carries(q, x);
      }
    }
    if q.ep.seqRemote > p.ep.seqRemote {
      assert Acknowledges(q, PureAck(q.ep));
    } else if q.ep.seqRemote > expected {
      var x :| Acknowledges(p, x);
      assert Acknowledges(q, x);
    }
  }

  lemma {:induction false} RunStaysSent(s: System, run: seq<Event>, expectedA: nat, expectedB: nat)
    requires Sized(s) && Sent(s.a, expectedA) && Sent(s.b, expectedB)
    ensures Sent(Run(s, run).a, expectedA) && Sent(Run(s, run).b, expectedB)
  {
    if run != [] {
      var before, last := run[..|run| - 1], run[|run| - 1];
      RunStaysSent(s, before, expectedA, expectedB);
      var r := Run(s, before);
      if last.AtA? {
        StaysSent(r.a, r.b.sent, last.act, expectedA);
      } else {
        StaysSent(r.b, r.a.sent, last.act, expectedB);
      }
    }
  }

  lemma AckUnblocks(p: Peer, network: set<Segment>, ack: Segment)
    requires p.ep.Sized() && p.ep.blocked && p.ep.established && ack in network
    requires ack.ackNo == p.ep.seqLocal + |p.ep.outgoing|
    ensures !Act(p, network, Deliver(ack)).ep.blocked
  {}

  lemma SegmentIsTaken(p: Peer, network: set<Segment>, x: Segment)
    requires p.ep.Sized() && p.ep.established && x in network && x.payload != [] && x.seqNo == p.ep.seqRemote
    ensures Act(p, network, Deliver(x)).ep.seqRemote == p.ep.seqRemote + |x.payload|
  {}

  /** Nobody sends: the network only delivers what it has. */
  predicate OnlyDeliveries(run: seq<Event>) {
    forall i | 0 <= i < |run| :: run[i].act.Deliver?
  }

  lemma {:induction false} DeliveriesAreClean(s: System, run: seq<Event>)
    requires Sized(s) && OnlyDeliveries(run)
    ensures CleanAtA(s, run)
  {
    if run != [] { DeliveriesAreClean(s, run[..|run| - 1]); }
  }

  /** The way out: deliver the segment if it was not taken yet, then its acknowledgement. */
  lemma CanUnblock(r: System, base: nat, x: Segment) returns (more: seq<Event>)
    requires Sized(r) && Direction(r.a, r.b, base) && Sent(r.b, base) && Carries(r.a, x)
    requires r.a.ep.blocked && r.a.ep.established && r.b.ep.established && r.a.ep.outgoing != []
    requires r.a.ep.seqLocal + |r.a.ep.outgoing| < WIRE
    ensures OnlyDeliveries(more) && !Run(r, more).a.ep.blocked
  {
    if r.b.ep.seqRemote != r.a.ep.seqLocal {
      more := AckArrives(r, [], r, base);
    } else {
      var deliver := AtB(Deliver(x));
      SegmentIsTaken(r.b, r.a.sent, x);
      StaysSent(r.b, r.a.sent, Deliver(x), base);
      RunExtends(r, [], deliver);
      assert [] + [deliver] == [deliver];
      more := AckArrives(r, [deliver], Step(r, deliver), base);
    }
  }

  lemma AckArrives(r: System, run: seq<Event>, t: System, base: nat) returns (more: seq<Event>)
    requires Sized(r) && t == Run(r, run) && Sent(t.b, base)
    requires t.a.ep.blocked && t.a.ep.established
    requires base < t.b.ep.seqRemote == t.a.ep.seqLocal + |t.a.ep.outgoing| < WIRE
    ensures |more| == |run| + 1 && more[..|run|] == run && more[|run|].act.Deliver? && !Run(r, more).a.ep.blocked
  {
    var ack :| Acknowledges(t.b, ack);
    AckUnblocks(t.a, t.b.sent, ack);
    RunExtends(r, run, AtA(Deliver(ack)));
    more := run + [AtA(Deliver(ack))];
  }

  /** In every reachable state with a non-empty segment in flight between established ends: if it ends below 2^32,
      deliveries alone can get it acknowledged; if not, no run of clean commits ever does. */
  lemma UnblocksExactly(s: System, run: seq<Event>, r: System)
    requires Agreeing(s) && CleanAtA(s, run) && r == Run(s, run)
    requires r.a.ep.blocked && r.a.ep.established && r.b.ep.established && r.a.ep.outgoing != []
    ensures (exists more :: OnlyDeliveries(more) && !Run(r, more).a.ep.blocked) <==>
            r.a.ep.seqLocal + |r.a.ep.outgoing| < WIRE
    ensures (exists more :: CleanAtA(r, more) && !Run(r, more).a.ep.blocked) <==>
            r.a.ep.seqLocal + |r.a.ep.outgoing| < WIRE
  {
    var baseA, baseB := s.a.ep.seqLocal, s.b.ep.seqLocal;
    RunKeepsDirection(s, run, baseA);
    if r.a.ep.seqLocal + |r.a.ep.outgoing| < WIRE {
      RunStaysSent(s, run, baseB, baseA);
      var x :| Carries(r.a, x);
      var more := CanUnblock(r, baseA, x);
      DeliveriesAreClean(r, more);
    } else {
      forall more | OnlyDeliveries(more) ensures CleanAtA(r, more) {
        DeliveriesAreClean(r, more);
      }
      forall more | CleanAtA(r, more) ensures Run(r, more).a.ep.blocked {
        StalledForever(r, more, baseA, 0, 0);
      }
    }
  }

  // ----- The two side conditions are needed -----

  function Socket(seqLocal: nat, seqRemote: nat, capacity: nat): (p: Peer)
    ensures Fresh(p)
  {
    Peer(Endpoint(true, seqLocal, seqRemote, false, [], 0, map[], [], capacity), [], [], [], 0, {})
  }

  /** A whole send call that finds nothing in flight, as two actions in a row. */
  lemma PlainSend(p: Peer, network: set<Segment>, tid: nat, data: seq<byte>)
    requires p.ep.Sized() && p.ep.established && p.ep.callers == map[] && !p.ep.blocked && |data| <= TCP_MTU
    ensures var q := Act(Act(p, network, SendEnter(tid, data)), network, SendCommit(tid));
            && q.ep == p.ep.(blocked := true, retries := 1, outgoing := data)
            && q.accepted == p.accepted + data && Transmit(q.ep) in q.sent
  {
    var e := Act(p, network, SendEnter(tid, data)).ep;
    assert e.callers - {tid} == map[];
    assert data[..|data|] == data;
  }

  /** Two threads that enter before either commits: both see no segment in flight. */
  lemma TwoSends(p: Peer, network: set<Segment>)
    requires p.ep.Sized() && p.ep.established && p.ep.callers == map[] && !p.ep.blocked
    ensures var q := Act(Act(p, network, SendEnter(1, [65])), network, SendEnter(2, [66]));
            var r := Act(Act(q, network, SendCommit(1)), network, SendCommit(2));
            && r.ep.outgoing == [66] && r.ep.seqLocal == p.ep.seqLocal && r.ep.seqRemote == p.ep.seqRemote
            && r.accepted == p.accepted + [65] + [66] && Transmit(r.ep) in r.sent
  {
    assert [65][..1] == [65] && [66][..1] == [66];
  }

  lemma Taken(p: Peer, network: set<Segment>, s: Segment)
    requires p.ep.Sized() && s in network && Takes(p.ep, s) && !p.ep.blocked
    ensures var q := Act(p, network, Deliver(s));
            var n := Min(|s.payload|, p.ep.capacity - |p.ep.queue|);
            && q.ep == p.ep.(seqRemote := p.ep.seqRemote + |s.payload|, queue := p.ep.queue + s.payload[..n])
            && q.received == p.received + s.payload[..n] && q.dropped == p.dropped + |s.payload| - n
            && PureAck(q.ep) in q.sent
  {
    var n := Min(|s.payload|, p.ep.capacity - |p.ep.queue|);
    assert (p.ep.queue + s.payload[..n])[|p.ep.queue|..] == s.payload[..n];
  }

  lemma RunExtends(s: System, run: seq<Event>, ev: Event)
    requires Sized(s)
    ensures Run(s, run + [ev]) == Step(Run(s, run), ev)
  {
    assert (run + [ev])[..|run|] == run;
  }

  /** Two actions at A, then one at B. */
  lemma RunExtendsAAB(s: System, run: seq<Event>, x: Action, y: Action, z: Action) returns (longer: seq<Event>)
    requires Sized(s)
    ensures longer == run + [AtA(x), AtA(y), AtB(z)]
    ensures var r := Run(s, run);
            var a := Act(Act(r.a, r.b.sent, x), r.b.sent, y);
            Run(s, longer) == System(a, Act(r.b, a.sent, z))
  {
    RunExtends(s, run, AtA(x));
    RunExtends(s, run + [AtA(x)], AtA(y));
    RunExtends(s, run + [AtA(x)] + [AtA(y)], AtB(z));
    longer := run + [AtA(x)] + [AtA(y)] + [AtB(z)];
  }

  /** With two senders the second commit replaces the first one's segment: B is fed byte 66 while A
      accepted 65 and then 66. */
  lemma TwoSendersLoseBytes() returns (s: System, run: seq<Event>)
    ensures Agreeing(s) && Run(s, run).b.dropped == 0 && !CleanAtA(s, run)
    ensures !(Run(s, run).b.received <= Run(s, run).a.accepted)
  {
    s := System(Socket(10, 20, 8), Socket(20, 10, 8));
    var x, y, seg := AtA(SendEnter(1, [65])), AtA(SendEnter(2, [66])), Segment(10, 20, [66]);
    RunExtends(s, [], x);
    RunExtends(s, [] + [x], y);
    run := RunExtendsAAB(s, [] + [x] + [y], SendCommit(1), SendCommit(2), Deliver(seg));
    TwoSends(s.a, {});
    Taken(s.b, Run(s, run).a.sent, seg);
    assert Run(s, run).a.accepted[0] == 65 && Run(s, run).b.received[0] == 66;
    NothingOverwrittenExactly(s, run);
  }

  /** A ring with one free byte: B acknowledges two bytes and keeps one. */
  lemma OverflowLosesBytes() returns (s: System, run: seq<Event>)
    ensures Agreeing(s) && OneSender(run, 1, 1)
    ensures var r := Run(s, run);
            && |r.a.accepted| == 2 && |r.b.received| == 1
            && r.b.ep.seqRemote == s.a.ep.seqLocal + 2 && PureAck(r.b.ep) in r.b.sent
  {
    s := System(Socket(10, 20, 8), Socket(20, 10, 1));
    var seg := Segment(10, 20, [65, 66]);
    run := RunExtendsAAB(s, [], SendEnter(1, [65, 66]), SendCommit(1), Deliver(seg));
    PlainSend(s.a, {}, 1, [65, 66]);
    Taken(s.b, Run(s, run).a.sent, seg);
  }
}
