/** What retransmission is for: a network that has lost everything. The retry pass over an ESTABLISHED socket is in
    core/network/af_inet/af_inet.h. */
module TcpRecovery {
  import opened TcpEndpoint
  import opened TcpProtocol

  /** The same two ends, with nothing left on the network in either direction. */
  function Lost(s: System): System {
    System(s.a.(sent := {}), s.b.(sent := {}))
  }

  /** Nobody sends data and B retransmits nothing: only A's retries and deliveries can bring A an acknowledgement. */
  predicate Quiet(ev: Event) {
    !ev.act.SendCommit? && !(ev.AtB? && ev.act.RetryTick?)
  }

  predicate AllQuiet(run: seq<Event>) {
    forall i | 0 <= i < |run| :: Quiet(run[i])
  }

  // ----- A retry, the segment and its acknowledgement -----

  lemma RetryResends(p: Peer, network: set<Segment>)
    requires p.ep.Sized() && p.ep.established && p.ep.blocked && p.ep.retries <= 4
    ensures var q := Act(p, network, RetryTick);
            && q.ep == p.ep.(retries := p.ep.retries + 1)
            && Segment(p.ep.seqLocal % 0x1_0000_0000, p.ep.seqRemote % 0x1_0000_0000, p.ep.outgoing) in q.sent
  {}

  lemma TakingAnswers(p: Peer, network: set<Segment>, x: Segment)
    requires p.ep.Sized() && p.ep.established && x in network && x.payload != [] && x.seqNo == p.ep.seqRemote
    ensures var q := Act(p, network, Deliver(x));
            PureAck(q.ep) in q.sent && q.ep.seqRemote == p.ep.seqRemote + |x.payload|
  {
    assert PureAck(Receive(p.ep, x)) in AsSet(ReceiveReply(p.ep, x));
  }

  /** One retry brings everything back: the segment it sends is taken, and the answer to it unblocks the sender. */
  lemma OneRetryRecovers(r: System) returns (more: seq<Event>)
    requires Sized(r) && r.a.ep.blocked && r.a.ep.established && r.b.ep.established && r.a.ep.outgoing != []
    requires r.a.ep.retries <= 4 && r.b.ep.seqRemote == r.a.ep.seqLocal
    requires r.a.ep.seqLocal + |r.a.ep.outgoing| < 0x1_0000_0000
    ensures |more| == 3 && more[0] == AtA(RetryTick) && more[1].AtB? && more[1].act.Deliver? && more[2].AtA?
    ensures more[2].act.Deliver? && !Run(r, more).a.ep.blocked
    ensures Run(r, more).a.ep.seqLocal == r.a.ep.seqLocal + |r.a.ep.outgoing|
  {
    var x := Transmit(r.a.ep);
    var a := Act(r.a, r.b.sent, RetryTick);
    RetryResends(r.a, r.b.sent);
    RunExtends(r, [], AtA(RetryTick));
    var b := Act(r.b, a.sent, Deliver(x));
    TakingAnswers(r.b, a.sent, x);
    RunExtends(r, [] + [AtA(RetryTick)], AtB(Deliver(x)));
    var ack := PureAck(b.ep);
    AckUnblocks(a, b.sent, ack);
    RunExtends(r, [] + [AtA(RetryTick)] + [AtB(Deliver(x))], AtA(Deliver(ack)));
    more := [] + [AtA(RetryTick)] + [AtB(Deliver(x))] + [AtA(Deliver(ack))];
  }

  // ----- When no retry helps -----

  /** A sends no more: it has retried often enough. */
  ghost predicate Spent(s: System) {
    s.a.ep.blocked && s.a.sent == {} && s.b.sent == {} && (s.a.ep.established ==> s.a.ep.retries > 4)
  }

  lemma StaysSpent(s: System, ev: Event)
    requires Sized(s) && Spent(s) && Quiet(ev)
    ensures Spent(Step(s, ev))
  {}

  lemma {:induction false} SpentForever(s: System, run: seq<Event>)
    requires Sized(s) && Spent(s) && AllQuiet(run)
    ensures Spent(Run(s, run))
  {
    if run != [] {
      SpentForever(s, run[..|run| - 1]);
      StaysSpent(Run(s, run[..|run| - 1]), run[|run| - 1]);
    }
  }

  /** B has the segment at `start` already, and does not answer it twice. */
  ghost predicate Answered(s: System, start: nat) {
    && s.a.ep.blocked && s.a.ep.seqLocal == start && s.b.ep.seqRemote > start && s.b.sent == {}
    && forall x | x in s.a.sent :: x.seqNo == start % 0x1_0000_0000
  }

  lemma StaysAnswered(s: System, ev: Event, start: nat)
    requires Sized(s) && Answered(s, start) && Quiet(ev)
    ensures Answered(Step(s, ev), start)
  {
    assert start % 0x1_0000_0000 <= start;
  }

  lemma {:induction false} AnsweredForever(s: System, run: seq<Event>, start: nat)
    requires Sized(s) && Answered(s, start) && AllQuiet(run)
    ensures Answered(Run(s, run), start)
  {
    if run != [] {
      AnsweredForever(s, run[..|run| - 1], start);
      StaysAnswered(Run(s, run[..|run| - 1]), run[|run| - 1], start);
    }
  }

  lemma {:induction false} QuietIsClean(s: System, run: seq<Event>)
    requires Sized(s) && AllQuiet(run)
    ensures CleanAtA(s, run)
  {
    if run != [] { QuietIsClean(s, run[..|run| - 1]); }
  }

  lemma LosingKeepsDirection(s: System, base: nat)
    requires Direction(s.a, s.b, base)
    ensures Direction(Lost(s).a, Lost(s).b, base)
  {}

  /** A has a retry left, B has not taken the segment in flight, and it ends below 2^32. */
  predicate Recoverable(r: System) {
    && r.a.ep.retries <= 4 && r.b.ep.seqRemote == r.a.ep.seqLocal
    && r.a.ep.seqLocal + |r.a.ep.outgoing| < 0x1_0000_0000
  }

  lemma NothingRecovers(t: System, base: nat, more: seq<Event>)
    requires Direction(t.a, t.b, base) && t.a.sent == {} && t.b.sent == {} && AllQuiet(more)
    requires t.a.ep.blocked && t.a.ep.outgoing != [] && !Recoverable(t)
    ensures Run(t, more).a.ep.blocked
  {
    if t.a.ep.retries > 4 {
      SpentForever(t, more);
    } else if t.b.ep.seqRemote != t.a.ep.seqLocal {
      AnsweredForever(t, more, t.a.ep.seqLocal);
    } else {
      QuietIsClean(t, more);
      StalledForever(t, more, base, 0, 0);
    }
  }

  ghost predicate Unblocks(s: System, more: seq<Event>)
    requires Sized(s)
  {
    AllQuiet(more) && !Run(s, more).a.ep.blocked
  }

  lemma RetriesDecide(t: System, base: nat)
    requires Direction(t.a, t.b, base) && t.a.sent == {} && t.b.sent == {}
    requires t.a.ep.blocked && t.a.ep.established && t.b.ep.established && t.a.ep.outgoing != []
    ensures (exists more :: Unblocks(t, more)) <==> Recoverable(t)
  {
    if Recoverable(t) {
      var more := OneRetryRecovers(t);
      assert Unblocks(t, more);
    } else {
      forall more ensures !Unblocks(t, more) {
        if AllQuiet(more) { NothingRecovers(t, base, more); }
      }
    }
  }

  /** After everything on the network is lost, retries can still get the segment in flight acknowledged if and only if A
      has a retry left, B has not taken the segment, whose acknowledgement is not repeated, and it ends below 2^32. */
  lemma RecoversExactly(s: System, run: seq<Event>, r: System)
    requires Agreeing(s) && CleanAtA(s, run) && r == Run(s, run)
    requires r.a.ep.blocked && r.a.ep.established && r.b.ep.established && r.a.ep.outgoing != []
    ensures (exists more :: Unblocks(Lost(r), more)) <==> Recoverable(r)
  {
    var t, base := Lost(r), s.a.ep.seqLocal;
    RunKeepsDirection(s, run, base);
    LosingKeepsDirection(r, base);
    RetriesDecide(t, base);
  }

  /** Data that B sends afterwards carries the lost acknowledgement along. */
  lemma PiggybackRecovers(r: System, tid: nat) returns (x: Segment)
    requires Sized(r) && r.a.ep.blocked && r.a.ep.established && r.b.ep.established
    requires r.b.ep.seqRemote == r.a.ep.seqLocal + |r.a.ep.outgoing| < 0x1_0000_0000
    requires tid in r.b.ep.callers && r.b.ep.callers[tid].Awake?
    ensures !Run(Lost(r), [AtB(SendCommit(tid)), AtA(Deliver(x))]).a.ep.blocked
  {
    var t := Lost(r);
    var b := Act(t.b, t.a.sent, SendCommit(tid));
    x := Transmit(b.ep);
    AckUnblocks(t.a, b.sent, x);
    RunExtends(t, [], AtB(SendCommit(tid)));
    RunExtends(t, [] + [AtB(SendCommit(tid))], AtA(Deliver(x)));
    assert [] + [AtB(SendCommit(tid))] + [AtA(Deliver(x))] == [AtB(SendCommit(tid)), AtA(Deliver(x))];
  }

  // ----- Giving up -----

  ghost function TicksAtA(run: seq<Event>): nat {
    if run == [] then 0 else TicksAtA(run[..|run| - 1]) + if run[|run| - 1] == AtA(RetryTick) then 1 else 0
  }

  ghost predicate NoCommitAtA(run: seq<Event>) {
    forall i | 0 <= i < |run| :: !(run[i].AtA? && run[i].act.SendCommit?)
  }

  lemma TickCounts(s: System, ev: Event)
    requires Sized(s) && !(ev.AtA? && ev.act.SendCommit?) && Step(s, ev).a.ep.blocked
    ensures s.a.ep.blocked
    ensures var e, e' := s.a.ep, Step(s, ev).a.ep;
            if ev == AtA(RetryTick) && e.established
            then if e.retries > 4 then !e'.established else e'.established && e'.retries == e.retries + 1
            else e'.established == e.established && e'.retries == e.retries
  {}

  /** While a segment stays in flight the retry count is the number of ticks, and past four the next tick gives up. */
  lemma {:induction false} CountsTicks(s: System, run: seq<Event>)
    requires Sized(s) && s.a.ep.established && s.a.ep.blocked && s.a.ep.retries <= 5
    requires NoCommitAtA(run) && Run(s, run).a.ep.blocked
    ensures var e, n := Run(s, run).a.ep, s.a.ep.retries + TicksAtA(run);
            (e.established <==> n <= 5) && (n <= 5 ==> e.retries == n)
  {
    if run != [] {
      var before := run[..|run| - 1];
      TickCounts(Run(s, before), run[|run| - 1]);
      CountsTicks(s, before);
    }
  }

  /** After a commit whose segment is not acknowledged, the fifth tick, and no earlier one, gives the connection up,
      whatever else happens meanwhile. */
  lemma FifthTickGivesUp(s: System, tid: nat, r: System, run: seq<Event>)
    requires Sized(s) && s.a.ep.established && tid in s.a.ep.callers && s.a.ep.callers[tid].Awake?
    requires r == Step(s, AtA(SendCommit(tid))) && NoCommitAtA(run) && Run(r, run).a.ep.blocked
    ensures Run(r, run).a.ep.established <==> TicksAtA(run) < 5
  {
    CountsTicks(r, run);
  }
}
