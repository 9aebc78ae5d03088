/** What a send call sends and what a receiving application gets, over whole runs: the calls of
    core/network/af_inet/tcp.h against the bytes their callers handed in and read. */
module TcpCalls {
  import opened Fifo
  import opened TcpEndpoint
  import opened TcpProtocol

  // ----- What a call was given -----

  ghost predicate Inside(s: System, run: seq<Event>, k: nat, tid: nat)
    requires Sized(s)
  {
    k <= |run| && tid in Run(s, run[..k]).a.ep.callers
  }

  /** Thread `tid` entered its send call at A with `data` at step `j` of the run and has not left it since. */
  ghost predicate Gave(s: System, run: seq<Event>, j: nat, tid: nat, data: seq<byte>)
    requires Sized(s)
  {
    && j < |run| && run[j] == AtA(SendEnter(tid, data)) && !Inside(s, run, j, tid)
    && forall k: nat | j < k <= |run| :: Inside(s, run, k, tid)
  }

  lemma KeepsData(p: Peer, network: set<Segment>, act: Action, tid: nat)
    requires p.ep.Sized() && tid in Act(p, network, act).ep.callers
    ensures tid in p.ep.callers ==> Act(p, network, act).ep.callers[tid].data == p.ep.callers[tid].data
    ensures tid !in p.ep.callers ==> act == SendEnter(tid, Act(p, network, act).ep.callers[tid].data)
  {}

  lemma InsideEarlier(s: System, run: seq<Event>, k: nat, tid: nat)
    requires Sized(s) && run != [] && k < |run|
    ensures Inside(s, run, k, tid) <==> Inside(s, run[..|run| - 1], k, tid)
  {
    assert run[..|run| - 1][..k] == run[..k];
  }

  /** A thread inside its call still holds what it was called with, through sleep and wake-up. */
  lemma {:induction false} CallerKeepsData(s: System, run: seq<Event>, tid: nat) returns (j: nat)
    requires Sized(s) && s.a.ep.callers == map[] && tid in Run(s, run).a.ep.callers
    ensures Gave(s, run, j, tid, Run(s, run).a.ep.callers[tid].data)
  {
    var before, last := run[..|run| - 1], run[|run| - 1];
    var r := Run(s, before);
    if last.AtA? { KeepsData(r.a, r.b.sent, last.act, tid); }
    assert run[..|run|] == run;
    if tid in r.a.ep.callers {
      j := CallerKeepsData(s, before, tid);
      InsideEarlier(s, run, j, tid);
      forall k: nat | j < k <= |run| ensures Inside(s, run, k, tid) {
        if k < |run| { InsideEarlier(s, run, k, tid); }
      }
    } else {
      j := |run| - 1;
    }
  }

  /** Every commit that is carried out sends, and reports as sent, the first 1500 bytes at most of what its own thread
      was called with. */
  lemma CommitSendsWhatWasGiven(s: System, run: seq<Event>, tid: nat, r: System)
    returns (j: nat, data: seq<byte>, sent: seq<byte>)
    requires Sized(s) && s.a.ep.callers == map[] && r == Run(s, run)
    requires tid in r.a.ep.callers && r.a.ep.callers[tid].Awake? && r.a.ep.established
    ensures Gave(s, run, j, tid, data) && sent == data[..if |data| < 1500 then |data| else 1500]
    ensures var q := Step(r, AtA(SendCommit(tid))).a;
            && q.accepted == r.a.accepted + sent && q.ep.outgoing == sent && q.ep.blocked && tid !in q.ep.callers
            && Segment(q.ep.seqLocal % 0x1_0000_0000, q.ep.seqRemote % 0x1_0000_0000, sent) in q.sent
  {
    j := CallerKeepsData(s, run, tid);
    data := r.a.ep.callers[tid].data;
    sent := data[..if |data| < 1500 then |data| else 1500];
  }

  /** And nothing else counts as sent. */
  lemma OnlyCommitsSend(p: Peer, network: set<Segment>, act: Action)
    requires p.ep.Sized() && Act(p, network, act).accepted != p.accepted
    ensures act.SendCommit? && act.tid in p.ep.callers && p.ep.callers[act.tid].Awake? && p.ep.established
  {}

  // ----- Sleeping and waking -----

  /** Whoever sleeps in a send call waits for a segment that is in flight. */
  ghost predicate SleepersWait(p: Peer) {
    forall t | t in p.ep.callers && p.ep.callers[t].Sleeping? :: p.ep.blocked
  }

  lemma SleepersStillWait(p: Peer, network: set<Segment>, act: Action)
    requires p.ep.Sized() && SleepersWait(p)
    ensures SleepersWait(Act(p, network, act))
  {}

  /** No wake-up is lost, in any run, with any number of threads. */
  lemma {:induction false} NobodySleepsInVain(s: System, run: seq<Event>)
    requires Sized(s) && SleepersWait(s.a)
    ensures SleepersWait(Run(s, run).a)
  {
    if run != [] {
      var before, last := run[..|run| - 1], run[|run| - 1];
      NobodySleepsInVain(s, before);
      var r := Run(s, before);
      if last.AtA? { SleepersStillWait(r.a, r.b.sent, last.act); }
    }
  }

  // ----- What the application reads -----

  /** The bytes read so far, followed by those still in the ring, are all that were put into it. */
  ghost predicate ReadInOrder(p: Peer) {
    p.received == p.consumed + p.ep.queue
  }

  lemma Regroup<T>(a: seq<T>, b: seq<T>, c: seq<T>, bc: seq<T>)
    requires bc == b + c
    ensures a + bc == a + b + c
  {}

  lemma DeliveryAppends(p: Peer, network: set<Segment>, x: Segment, q: seq<byte>, r: Peer)
    requires p.ep.Sized() && ReadInOrder(p) && x in network && q == p.ep.queue && r == Act(p, network, Deliver(x))
    ensures ReadInOrder(r)
  {
    var all := r.ep.queue;
    assert q <= all && all == q + all[|q|..];
    Regroup(p.consumed, q, all[|q|..], all);
  }

  lemma StillInOrder(p: Peer, network: set<Segment>, act: Action)
    requires p.ep.Sized() && ReadInOrder(p)
    ensures ReadInOrder(Act(p, network, act))
  {
    match act
    case Deliver(x) =>
      if x in network { DeliveryAppends(p, network, x, p.ep.queue, Act(p, network, act)); }
    case AppRead(n) =>
      var q, k := p.ep.queue, Min(n, |p.ep.queue|);
      Regroup(p.consumed, q[..k], q[k..], q);
    case _ =>
  }

  lemma {:induction false} RunReadsInOrder(s: System, run: seq<Event>)
    requires Sized(s) && ReadInOrder(s.b)
    ensures ReadInOrder(Run(s, run).b)
  {
    if run != [] {
      var before, last := run[..|run| - 1], run[|run| - 1];
      RunReadsInOrder(s, before);
      var r := Run(s, before);
      if last.AtB? { StillInOrder(r.b, r.a.sent, last.act); }
    }
  }

  lemma PrefixOfPrefix<T>(a: seq<T>, b: seq<T>, ab: seq<T>, all: seq<T>)
    requires ab == a + b && ab <= all
    ensures a <= all
  {}

  /** From call to call: in every run with clean commits at A and room at B, what B's application has read is a prefix
      of what A's send calls reported as sent. */
  lemma ReaderGetsWhatWasSent(s: System, run: seq<Event>)
    requires Agreeing(s) && CleanAtA(s, run) && RoomAtB(s, run)
    ensures Run(s, run).b.consumed <= Run(s, run).a.accepted
  {
    var r := Run(s, run);
    StopAndWaitSafety(s, run);
    RunReadsInOrder(s, run);
    PrefixOfPrefix(r.b.consumed, r.b.ep.queue, r.b.received, r.a.accepted);
  }
}
