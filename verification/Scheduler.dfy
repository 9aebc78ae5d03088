/** The round-robin scheduler of core/interrupt.h: three tick functions acting on the thread table and
    on each core's current-thread slot, one at a time under `threads_info_lock`. */
module Scheduler {
  import opened Arithmetic

  datatype Time = Time(sec: nat, usec: nat) {
    /** `_later`. */
    predicate Reached(wakeup: Time) {
      sec > wakeup.sec || (sec == wakeup.sec && usec >= wakeup.usec)
    }
  }

  datatype State =
    | NotExist | Ready | Running | Blocked | BlockedOther | Idle | Dead | EndedNotCleaned | WaitingSignal

  /** A slot of `threads_info_ptr`; `Blocked` stands for the states that only an event ends. */
  datatype Slot = Vacant | Thread(pid: nat, state: State, wakeup: Time)

  predicate Is(threads: seq<Slot>, t: nat, state: State) {
    t < |threads| && threads[t].Thread? && threads[t].state == state
  }

  datatype Sys = Sys(threads: seq<Slot>, cores: seq<nat>)

  /** What a tick hands back to the assembly: a thread to resume, or whatever the register held. */
  datatype Choice = Resume(tid: nat) | Undefined

  // ----- The pieces of a tick -----

  function Woken(s: Slot, now: Time): Slot {
    if s.Thread? && s.state == BlockedOther && now.Reached(s.wakeup) then s.(state := Ready) else s
  }

  function WakeSleepers(threads: seq<Slot>, now: Time): (r: seq<Slot>)
    ensures |r| == |threads| && forall t | 0 <= t < |threads| :: r[t] == Woken(threads[t], now)
  {
    seq(|threads|, t requires 0 <= t < |threads| => Woken(threads[t], now))
  }

  /** The first READY slot in cyclic order from distance `i` after `cur`; 0 when there is none. */
  function Search(threads: seq<Slot>, cur: nat, i: nat): nat
    requires |threads| > 0
    decreases |threads| - i
  {
    if i >= |threads| then 0
    else
      var idx := (cur + i) % |threads|;
      if idx != 0 && Is(threads, idx, Ready) then idx else Search(threads, cur, i + 1)
  }

  function FirstReady(threads: seq<Slot>, cur: nat): nat
    requires |threads| > 0
  {
    Search(threads, cur, 1)
  }

  function SetState(threads: seq<Slot>, t: nat, state: State): seq<Slot> {
    if t < |threads| && threads[t].Thread? then threads[t := threads[t].(state := state)] else threads
  }

  predicate Shaped(s: Sys) {
    |s.threads| > 1 && forall c | 0 <= c < |s.cores| :: s.cores[c] < |s.threads|
  }

  function TickIdle(s: Sys, c: nat, now: Time): (Sys, Choice)
    requires Shaped(s) && c < |s.cores|
  {
    var woken := WakeSleepers(s.threads, now);
    var next := FirstReady(woken, 0);
    if next > 0 then (Sys(SetState(woken, next, Running), s.cores[c := next]), Resume(next))
    else (Sys(woken, s.cores[c := 0]), Resume(0))
  }

  /** The outgoing thread: an ended one dies, a running one becomes ready again when another takes over. */
  function Retire(threads: seq<Slot>, cur: nat, replaced: bool): seq<Slot> {
    if Is(threads, cur, EndedNotCleaned) then SetState(threads, cur, Dead)
    else if replaced && Is(threads, cur, Running) then SetState(threads, cur, Ready)
    else threads
  }

  function TickNonIdle(s: Sys, c: nat, now: Time): (Sys, Choice)
    requires Shaped(s) && c < |s.cores|
  {
    var cur, woken := s.cores[c], WakeSleepers(s.threads, now);
    var next := FirstReady(woken, cur);
    var left := Retire(woken, cur, next > 0);
    if next > 0 then (Sys(SetState(left, next, Running), s.cores[c := next]), Resume(next))
    else if Is(left, cur, Running) then (Sys(left, s.cores), Resume(cur))
    else if !Is(left, cur, Ready) then (Sys(left, s.cores[c := 0]), Resume(0))
    else (Sys(left, s.cores), Undefined)
  }

  /** `timer_tick1`: slot 1 is not taken, and a thread that finds no successor leaves its core idle. */
  function TickYield(s: Sys, c: nat, now: Time): (Sys, Choice)
    requires Shaped(s) && c < |s.cores|
  {
    var cur, woken := s.cores[c], WakeSleepers(s.threads, now);
    var next := FirstReady(woken, cur);
    var left := Retire(woken, cur, next > 1);
    if next > 1 then (Sys(SetState(left, next, Running), s.cores[c := next]), Resume(next))
    else (Sys(left, s.cores[c := 0]), Resume(0))
  }

  // ----- The same ticks in place -----

  class Kernel {
    const threads: array<Slot>
    const cores: array<nat>

    constructor (threads: seq<Slot>, coreCount: nat)
      requires |threads| > 1
      ensures fresh(this.threads) && fresh(cores)
      ensures View() == Sys(threads, seq(coreCount, _ => 0)) && Shaped(View())
    {
      this.threads := new Slot[|threads|](i requires 0 <= i < |threads| => threads[i]);
      cores := new nat[coreCount](_ => 0);
      new;
      assert this.threads[..] == threads;
      assert cores[..] == seq(coreCount, _ => 0);
    }

    ghost function View(): Sys
      reads threads, cores
    {
      Sys(threads[..], cores[..])
    }

    method HandleSleeping(now: Time)
      modifies threads
      ensures threads[..] == WakeSleepers(old(threads[..]), now)
      ensures forall t | 0 <= t < threads.Length ::
                threads[t] == if Due(old(threads[t]), now) then old(threads[t]).(state := Ready) else old(threads[t])
    {
      for i := 0 to threads.Length
        invariant forall t | 0 <= t < i :: threads[t] == Woken(old(threads[t]), now)
        invariant forall t | i <= t < threads.Length :: threads[t] == old(threads[t])
      {
        if threads[i].Thread? && threads[i].state == BlockedOther && now.Reached(threads[i].wakeup) {
          threads[i] := threads[i].(state := Ready);
        }
      }
    }

    method FindReady(cur: nat) returns (next: nat)
      requires threads.Length > 0
      ensures next == FirstReady(threads[..], cur)
    {
      next := 0;
      var i := 1;
      while i < threads.Length
        invariant 1 <= i && FirstReady(threads[..], cur) == Search(threads[..], cur, i)
      {
        var idx := (cur + i) % threads.Length;
        if idx != 0 && threads[idx].Thread? && threads[idx].state == Ready {
          return idx;
        }
        i := i + 1;
      }
    }

    method Assign(t: nat, state: State)
      requires t < threads.Length
      modifies threads
      ensures threads[..] == SetState(old(threads[..]), t, state)
    {
      if threads[t].Thread? {
        threads[t] := threads[t].(state := state);
      }
    }

    method TickFromIdle(c: nat, now: Time) returns (choice: Choice)
      requires Shaped(View()) && c < cores.Length
      modifies threads, cores
      ensures (View(), choice) == TickIdle(old(View()), c, now)
      ensures Turns(old(threads[..]), threads[..], 0, cores[c], now) && choice == Resume(cores[c])
      ensures forall d | 0 <= d < cores.Length && d != c :: cores[d] == old(cores[d])
      ensures if cores[c] > 0 then Nearest(old(threads[..]), 0, cores[c], now) else NobodyElse(old(threads[..]), 0, now)
    {
      ghost var s, r := View(), TickIdle(View(), c, now).0;
      TickIdleShaped(s, c, now);
      IdleTurns(s, c, now, r, r.cores[c]);
      HandleSleeping(now);
      var next := FindReady(0);
      if next > 0 {
        SearchFinds(threads[..], 0, 1);
        Assign(next, Running);
        cores[c] := next;
        return Resume(next);
      }
      cores[c] := 0;
      return Resume(0);
    }

    /** `end_thread` for the outgoing thread, and its return to the ready ones. */
    method RetireCurrent(cur: nat, replaced: bool)
      requires cur < threads.Length
      modifies threads
      ensures threads[..] == Retire(old(threads[..]), cur, replaced)
    {
      if threads[cur].Thread? && threads[cur].state == EndedNotCleaned {
        Assign(cur, Dead);
      }
      if replaced && threads[cur].Thread? && threads[cur].state == Running {
        Assign(cur, Ready);
      }
    }

    method TickFromNonIdle(c: nat, now: Time) returns (choice: Choice)
      requires Shaped(View()) && c < cores.Length
      modifies threads, cores
      ensures (View(), choice) == TickNonIdle(old(View()), c, now)
      ensures forall d | 0 <= d < cores.Length && d != c :: cores[d] == old(cores[d])
      ensures old(cores[c]) != 0 ==>
                var cur, next := old(cores[c]), cores[c];
                && Turns(old(threads[..]), threads[..], cur, next, now)
                && (if next > 0 && next != cur then Nearest(old(threads[..]), cur, next, now)
                    else NobodyElse(old(threads[..]), cur, now))
                && choice == if next == cur && !Is(old(threads[..]), cur, Running) then Undefined else Resume(next)
    {
      var cur := cores[c];
      ghost var s, r := View(), TickNonIdle(View(), c, now).0;
      TickNonIdleShaped(s, c, now);
      if cur != 0 { NonIdleTurns(s, c, now, r, cur, r.cores[c]); }
      assert old(View()).cores[c] == cur;
      HandleSleeping(now);
      var next := FindReady(cur);
      SearchFinds(threads[..], cur, 1);
      RetireCurrent(cur, next > 0);
      if next > 0 {
        Assign(next, Running);
        cores[c] := next;
        return Resume(next);
      }
      if threads[cur].Thread? && threads[cur].state == Running {
        return Resume(cur);
      }
      if !(threads[cur].Thread? && threads[cur].state == Ready) {
        cores[c] := 0;
        return Resume(0);
      }
      return Undefined;
    }

    method TickOnYield(c: nat, now: Time) returns (choice: Choice)
      requires Shaped(View()) && c < cores.Length
      modifies threads, cores
      ensures (View(), choice) == TickYield(old(View()), c, now)
      ensures forall d | 0 <= d < cores.Length && d != c :: cores[d] == old(cores[d])
      ensures old(cores[c]) != 0 ==>
                var cur, next := old(cores[c]), cores[c];
                && Turns(old(threads[..]), threads[..], cur, next, now) && choice == Resume(next) && next != 1
                && if next > 0 then Nearest(old(threads[..]), cur, next, now)
                   else NobodyElse(old(threads[..]), cur, now)
                        || (cur != 1 && CanRun(old(threads[1]), now) && Nearest(old(threads[..]), cur, 1, now))
    {
      var cur := cores[c];
      ghost var s, r := View(), TickYield(View(), c, now).0;
      TickYieldShaped(s, c, now);
      if cur != 0 { YieldTurns(s, c, now, r, cur, r.cores[c]); }
      assert old(View()).cores[c] == cur;
      HandleSleeping(now);
      var next := FindReady(cur);
      SearchFinds(threads[..], cur, 1);
      RetireCurrent(cur, next > 1);
      if next > 1 {
        Assign(next, Running);
        cores[c] := next;
        return Resume(next);
      }
      cores[c] := 0;
      return Resume(0);
    }
  }

  // ----- What the search finds -----

  /** Steps from slot `cur` forward to slot `t` around the table. */
  function Distance(n: nat, cur: nat, t: nat): nat
    requires cur < n && t < n
  {
    if t >= cur then t - cur else n - cur + t
  }

  lemma StepsAway(n: nat, cur: nat, i: nat)
    requires cur < n && i < n
    ensures (cur + i) % n < n && Distance(n, cur, (cur + i) % n) == i
  {
    Wraps(cur + i, n);
  }

  lemma DistanceLeads(n: nat, cur: nat, t: nat)
    requires cur < n && t < n
    ensures (cur + Distance(n, cur, t)) % n == t
  {
    Wraps(cur + Distance(n, cur, t), n);
  }

  /** The search returns the READY slot nearest after `cur`, or 0 when none is READY. */
  lemma {:induction false} SearchFinds(threads: seq<Slot>, cur: nat, i: nat)
    requires |threads| > 0 && cur < |threads| && 1 <= i
    ensures var r := Search(threads, cur, i);
            if r > 0 then
              && Is(threads, r, Ready) && r != cur && i <= Distance(|threads|, cur, r)
              && forall t | 0 < t < |threads| && Is(threads, t, Ready) && i <= Distance(|threads|, cur, t) ::
                   Distance(|threads|, cur, r) <= Distance(|threads|, cur, t)
            else
              forall t | 0 < t < |threads| && Is(threads, t, Ready) :: Distance(|threads|, cur, t) < i
    decreases |threads| - i
  {
    var n := |threads|;
    if i < n {
      var idx := (cur + i) % n;
      StepsAway(n, cur, i);
      SearchFinds(threads, cur, i + 1);
      forall t | 0 < t < n && Distance(n, cur, t) == i ensures t == idx {
        DistanceLeads(n, cur, t);
      }
    }
  }

  // ----- A tick slot by slot -----

  /** The thread sleeps and its time has come. */
  ghost predicate Due(x: Slot, now: Time) {
    && x.Thread? && x.state == BlockedOther
    && (x.wakeup.sec < now.sec || (x.wakeup.sec == now.sec && x.wakeup.usec <= now.usec))
  }

  ghost predicate CanRun(x: Slot, now: Time) {
    Due(x, now) || (x.Thread? && x.state == Ready)
  }

  /** What becomes of slot `t`, from `x` to `y`, when a core goes from thread `cur` to thread `next`: the new one runs,
      an ended one dies, a running one that is replaced is ready again, due sleepers wake, and the rest stays. */
  ghost predicate Turn(x: Slot, y: Slot, t: nat, cur: nat, next: nat, now: Time) {
    if t == next && next != cur && next != 0 then CanRun(x, now) && y == x.(state := Running)
    else if t == cur != 0 && x.Thread? && x.state == EndedNotCleaned then y == x.(state := Dead)
    else if t == cur != 0 && x.Thread? && x.state == Running && next != cur && next != 0 then y == x.(state := Ready)
    else if Due(x, now) then y == x.(state := Ready)
    else y == x
  }

  ghost predicate Turns(before: seq<Slot>, after: seq<Slot>, cur: nat, next: nat, now: Time) {
    && |after| == |before|
    && forall t: nat {:trigger Turn(before[t], after[t], t, cur, next, now)} | t < |before| ::
         Turn(before[t], after[t], t, cur, next, now)
  }

  /** No thread that could run is passed over for `next`. */
  ghost predicate Nearest(before: seq<Slot>, cur: nat, next: nat, now: Time) {
    && cur < |before| && next < |before|
    && forall t: nat {:trigger CanRun(before[t], now)} | 0 < t < |before| && t != cur && CanRun(before[t], now) ::
         Distance(|before|, cur, next) <= Distance(|before|, cur, t)
  }

  ghost predicate NobodyElse(before: seq<Slot>, cur: nat, now: Time) {
    forall t: nat {:trigger CanRun(before[t], now)} | 0 < t < |before| && t != cur :: !CanRun(before[t], now)
  }

  /** What the search finds, in terms of the threads before the sleepers were woken. */
  lemma SearchFindsWoken(threads: seq<Slot>, cur: nat, now: Time, next: nat)
    requires cur < |threads| && next == FirstReady(WakeSleepers(threads, now), cur)
    ensures next > 0 ==> next < |threads| && next != cur && CanRun(threads[next], now)
    ensures next > 0 ==> Nearest(threads, cur, next, now)
    ensures next == 0 ==> NobodyElse(threads, cur, now)
  {
    var woken := WakeSleepers(threads, now);
    SearchFinds(woken, cur, 1);
    forall t: nat | t < |threads| ensures Is(woken, t, Ready) <==> CanRun(threads[t], now) {
      assert woken[t] == Woken(threads[t], now);
    }
  }

  lemma IdleTurns(s: Sys, c: nat, now: Time, r: Sys, next: nat)
    requires Shaped(s) && c < |s.cores|
    requires r == TickIdle(s, c, now).0 && |r.cores| == |s.cores| && next == r.cores[c]
    ensures Turns(s.threads, r.threads, 0, next, now) && r.cores == s.cores[c := next]
    ensures TickIdle(s, c, now).1 == Resume(next)
    ensures if next > 0 then Nearest(s.threads, 0, next, now) else NobodyElse(s.threads, 0, now)
  {
    SearchFindsWoken(s.threads, 0, now, FirstReady(WakeSleepers(s.threads, now), 0));
  }

  lemma NonIdleTurns(s: Sys, c: nat, now: Time, r: Sys, cur: nat, next: nat)
    requires Shaped(s) && c < |s.cores| && cur == s.cores[c] != 0
    requires r == TickNonIdle(s, c, now).0 && |r.cores| == |s.cores| && next == r.cores[c]
    ensures Turns(s.threads, r.threads, cur, next, now) && r.cores == s.cores[c := next]
    ensures if next > 0 && next != cur then Nearest(s.threads, cur, next, now) else NobodyElse(s.threads, cur, now)
    ensures TickNonIdle(s, c, now).1 == if next == cur && !Is(s.threads, cur, Running) then Undefined else Resume(next)
  {
    SearchFindsWoken(s.threads, cur, now, FirstReady(WakeSleepers(s.threads, now), cur));
  }

  /** A yield, which passes slot 1 over: when that is the nearest the core goes idle. */
  lemma YieldTurns(s: Sys, c: nat, now: Time, r: Sys, cur: nat, next: nat)
    requires Shaped(s) && c < |s.cores| && cur == s.cores[c] != 0
    requires r == TickYield(s, c, now).0 && |r.cores| == |s.cores| && next == r.cores[c]
    ensures Turns(s.threads, r.threads, cur, next, now) && r.cores == s.cores[c := next] && next != cur && next != 1
    ensures TickYield(s, c, now).1 == Resume(next)
    ensures if next > 0 then Nearest(s.threads, cur, next, now)
            else NobodyElse(s.threads, cur, now)
                 || (cur != 1 && CanRun(s.threads[1], now) && Nearest(s.threads, cur, 1, now))
  {
    SearchFindsWoken(s.threads, cur, now, FirstReady(WakeSleepers(s.threads, now), cur));
  }

  // ----- Runs -----

  /** What can happen. A thread that blocks first leaves the RUNNING state and then yields; both are one step. A plain
      yield leaves its state alone. */
  datatype Event =
    | Tick(core: nat, now: Time)
    | Yield(core: nat, now: Time)
    | BlockAndYield(core: nat, to: State, wakeup: Time, now: Time)
    | Wake(tid: nat)
    | Spawn(tid: nat, pid: nat)
    | EndCurrent(core: nat)
    | EndProcess(pid: nat)

  function Ended(x: Slot, pid: nat): Slot {
    if x.Thread? && x.pid == pid && x.state != NotExist then x.(state := EndedNotCleaned) else x
  }

  predicate Enabled(s: Sys, e: Event) {
    match e
    case Tick(c, _) => c < |s.cores|
    case Yield(c, _) => c < |s.cores| && s.cores[c] != 0
    case BlockAndYield(c, to, _, _) => c < |s.cores| && s.cores[c] != 0 && to in {Blocked, BlockedOther, Dead}
    case Wake(t) => Is(s.threads, t, Blocked) || Is(s.threads, t, BlockedOther)
    case Spawn(t, _) => 0 < t < |s.threads| && s.threads[t].Vacant?
    case EndCurrent(c) => c < |s.cores| && s.cores[c] != 0
    case EndProcess(_) => true
  }

  function LeaveRunning(threads: seq<Slot>, t: nat, to: State, wakeup: Time): seq<Slot> {
    if t < |threads| && threads[t].Thread? then threads[t := threads[t].(state := to, wakeup := wakeup)] else threads
  }

  ghost predicate SameShape(s: Sys, r: Sys) {
    Shaped(r) && |r.threads| == |s.threads| && |r.cores| == |s.cores|
  }

  lemma TickIdleShaped(s: Sys, c: nat, now: Time)
    requires Shaped(s) && c < |s.cores|
    ensures SameShape(s, TickIdle(s, c, now).0)
  {
    SearchFinds(WakeSleepers(s.threads, now), 0, 1);
  }

  lemma TickNonIdleShaped(s: Sys, c: nat, now: Time)
    requires Shaped(s) && c < |s.cores|
    ensures SameShape(s, TickNonIdle(s, c, now).0)
  {
    SearchFinds(WakeSleepers(s.threads, now), s.cores[c], 1);
  }

  lemma TickYieldShaped(s: Sys, c: nat, now: Time)
    requires Shaped(s) && c < |s.cores|
    ensures SameShape(s, TickYield(s, c, now).0)
  {
    SearchFinds(WakeSleepers(s.threads, now), s.cores[c], 1);
  }

  function Step(s: Sys, e: Event): (r: Sys)
    requires Shaped(s)
    ensures Shaped(r) && |r.threads| == |s.threads| && |r.cores| == |s.cores|
  {
    if !Enabled(s, e) then s
    else
      match e
      case Tick(c, now) =>
        TickIdleShaped(s, c, now);
        TickNonIdleShaped(s, c, now);
        if s.cores[c] == 0 then TickIdle(s, c, now).0 else TickNonIdle(s, c, now).0
      case Yield(c, now) =>
        TickYieldShaped(s, c, now);
        TickYield(s, c, now).0
      case BlockAndYield(c, to, wakeup, now) =>
        var left := s.(threads := LeaveRunning(s.threads, s.cores[c], to, wakeup));
        TickYieldShaped(left, c, now);
        TickYield(left, c, now).0
      case Wake(t) => s.(threads := SetState(s.threads, t, Ready))
      case Spawn(t, pid) => s.(threads := s.threads[t := Thread(pid, Ready, Time(0, 0))])
      case EndCurrent(c) => s.(threads := SetState(s.threads, s.cores[c], EndedNotCleaned))
      case EndProcess(pid) =>
        s.(threads := seq(|s.threads|, t requires 0 <= t < |s.threads| => Ended(s.threads[t], pid)))
  }

  function Run(s: Sys, run: seq<Event>): (r: Sys)
    requires Shaped(s)
    ensures Shaped(r) && |r.threads| == |s.threads| && |r.cores| == |s.cores|
  {
    if run == [] then s else Step(Run(s, run[..|run| - 1]), run[|run| - 1])
  }

  // ----- Exclusive execution -----

  /** The thread on a core is running, or was ended under way. */
  predicate OnCore(threads: seq<Slot>, t: nat) {
    t == 0 || Is(threads, t, Running) || Is(threads, t, EndedNotCleaned)
  }

  ghost predicate HasCore(cores: seq<nat>, t: nat) {
    exists c :: 0 <= c < |cores| && cores[c] == t
  }

  /** No thread but idle is on two cores. */
  ghost predicate Seated(s: Sys) {
    && Shaped(s)
    && (forall c | 0 <= c < |s.cores| :: OnCore(s.threads, s.cores[c]))
    && (forall c, d | 0 <= c < d < |s.cores| && s.cores[c] == s.cores[d] :: s.cores[c] == 0)
  }

  /** And every running thread is on one. */
  ghost predicate Exclusive(s: Sys) {
    && Seated(s) && !Is(s.threads, 0, Running)
    && (forall t | 0 <= t < |s.threads| && Is(s.threads, t, Running) :: HasCore(s.cores, t))
  }

  lemma WakingKeepsSeats(s: Sys, now: Time)
    requires Seated(s)
    ensures Seated(s.(threads := WakeSleepers(s.threads, now)))
  {
    forall c | 0 <= c < |s.cores| ensures OnCore(WakeSleepers(s.threads, now), s.cores[c]) {
      assert OnCore(s.threads, s.cores[c]);
    }
  }

  /** A core passes from its thread, whatever becomes of it, to a ready one or to idle. */
  lemma SeatPasses(s: Sys, c: nat, threads: seq<Slot>, next: nat)
    requires Seated(s) && c < |s.cores| && |threads| == |s.threads| && next < |threads|
    requires next == 0 || (Is(s.threads, next, Ready) && Is(threads, next, Running))
    requires forall t | 0 <= t < |threads| && t != next && t != s.cores[c] :: threads[t] == s.threads[t]
    ensures Seated(Sys(threads, s.cores[c := next]))
  {
    forall d | 0 <= d < |s.cores| && d != c ensures OnCore(threads, s.cores[d]) && (s.cores[d] == next ==> next == 0) {
      assert OnCore(s.threads, s.cores[d]);
    }
  }

  lemma HasCoreElsewhere(cores: seq<nat>, c: nat, next: nat, t: nat)
    requires c < |cores| && HasCore(cores, t) && t != cores[c]
    ensures HasCore(cores[c := next], t)
  {
    var d :| 0 <= d < |cores| && cores[d] == t;
    assert cores[c := next][d] == t;
  }

  lemma WakingIsSafe(s: Sys, now: Time)
    requires Exclusive(s)
    ensures Exclusive(s.(threads := WakeSleepers(s.threads, now)))
  {
    var woken := WakeSleepers(s.threads, now);
    forall t | 0 <= t < |woken| && Is(woken, t, Running) ensures HasCore(s.cores, t) {
      assert Is(s.threads, t, Running);
    }
  }

  /** A core passes from its thread, no longer running, to a ready one or to idle. */
  lemma HandOver(s: Sys, c: nat, threads: seq<Slot>, next: nat)
    requires Exclusive(s) && c < |s.cores| && |threads| == |s.threads| && next < |threads|
    requires next == 0 || (Is(s.threads, next, Ready) && Is(threads, next, Running))
    requires forall t | 0 <= t < |threads| && t != next && t != s.cores[c] :: threads[t] == s.threads[t]
    requires s.cores[c] != next ==> !Is(threads, s.cores[c], Running)
    requires next == 0 ==> threads[0] == s.threads[0]
    ensures Exclusive(Sys(threads, s.cores[c := next]))
  {
    SeatPasses(s, c, threads, next);
    var cores := s.cores[c := next];
    forall t | 0 <= t < |threads| && Is(threads, t, Running) ensures HasCore(cores, t) {
      if t == next {
        assert cores[c] == t;
      } else {
        HasCoreElsewhere(s.cores, c, next, t);
      }
    }
  }

  lemma TickIdleIsSafe(s: Sys, c: nat, now: Time)
    requires Exclusive(s) && c < |s.cores| && s.cores[c] == 0
    ensures Exclusive(TickIdle(s, c, now).0)
  {
    var woken := s.(threads := WakeSleepers(s.threads, now));
    WakingIsSafe(s, now);
    var next := FirstReady(woken.threads, 0);
    SearchFinds(woken.threads, 0, 1);
    HandOver(woken, c, if next > 0 then SetState(woken.threads, next, Running) else woken.threads, next);
  }

  lemma TickNonIdleIsSafe(s: Sys, c: nat, now: Time)
    requires Exclusive(s) && c < |s.cores| && s.cores[c] != 0
    ensures Exclusive(TickNonIdle(s, c, now).0) && TickNonIdle(s, c, now).1.Resume?
  {
    var cur, woken := s.cores[c], s.(threads := WakeSleepers(s.threads, now));
    WakingIsSafe(s, now);
    assert OnCore(woken.threads, cur);
    var next := FirstReady(woken.threads, cur);
    SearchFinds(woken.threads, cur, 1);
    var left := Retire(woken.threads, cur, next > 0);
    if next > 0 {
      HandOver(woken, c, SetState(left, next, Running), next);
    } else if !Is(left, cur, Running) {
      HandOver(woken, c, left, 0);
    } else {
      assert left == woken.threads;
    }
  }

  /** The thread has left the RUNNING state, or another one above slot 1 takes over. */
  predicate SafeYield(s: Sys, c: nat, now: Time)
    requires Shaped(s) && c < |s.cores|
  {
    !Is(s.threads, s.cores[c], Running) || FirstReady(WakeSleepers(s.threads, now), s.cores[c]) > 1
  }

  /** A yield keeps exclusive execution exactly then. */
  lemma YieldSafeExactly(s: Sys, c: nat, now: Time)
    requires Exclusive(s) && c < |s.cores| && s.cores[c] != 0
    ensures Exclusive(TickYield(s, c, now).0) <==> SafeYield(s, c, now)
  {
    var cur, woken := s.cores[c], s.(threads := WakeSleepers(s.threads, now));
    WakingIsSafe(s, now);
    assert OnCore(woken.threads, cur) && OnCore(s.threads, cur);
    var next := FirstReady(woken.threads, cur);
    SearchFinds(woken.threads, cur, 1);
    var left := Retire(woken.threads, cur, next > 1);
    if next > 1 {
      HandOver(woken, c, SetState(left, next, Running), next);
    } else if !Is(s.threads, cur, Running) {
      HandOver(woken, c, left, 0);
    } else {
      assert Is(left, cur, Running);
      assert !HasCore(s.cores[c := 0], cur);
    }
  }

  /** The same when the thread was taken out of the RUNNING state just before. */
  lemma LeavingIsSafe(s: Sys, c: nat, to: State, wakeup: Time, now: Time)
    requires Exclusive(s) && c < |s.cores| && s.cores[c] != 0 && to in {Blocked, BlockedOther, Dead}
    ensures Exclusive(TickYield(s.(threads := LeaveRunning(s.threads, s.cores[c], to, wakeup)), c, now).0)
  {
    var cur, left := s.cores[c], s.(threads := LeaveRunning(s.threads, s.cores[c], to, wakeup));
    assert OnCore(s.threads, cur);
    var woken := WakeSleepers(left.threads, now);
    var next := FirstReady(woken, cur);
    SearchFinds(woken, cur, 1);
    var idle := s.(threads := WakeSleepers(s.threads, now));
    WakingIsSafe(s, now);
    assert Retire(woken, cur, next > 1) == woken;
    if next > 1 {
      assert Is(idle.threads, next, Ready);
      HandOver(idle, c, SetState(woken, next, Running), next);
    } else {
      HandOver(idle, c, woken, 0);
    }
  }

  /** Changing states of threads that are on no core, to anything but RUNNING, or ending threads. */
  lemma QuietChangeIsSafe(s: Sys, threads: seq<Slot>)
    requires Exclusive(s) && |threads| == |s.threads|
    requires forall t | 0 <= t < |threads| ::
               threads[t] == s.threads[t] || (!Is(threads, t, Running)
                 && (OnCore(s.threads, t) && t != 0 ==> OnCore(threads, t)))
    ensures Exclusive(s.(threads := threads))
  {
    forall t | 0 <= t < |threads| && Is(threads, t, Running) ensures HasCore(s.cores, t) {
      assert threads[t] == s.threads[t];
    }
    forall c | 0 <= c < |s.cores| ensures OnCore(threads, s.cores[c]) {
      assert OnCore(s.threads, s.cores[c]);
    }
  }

  predicate SafeStep(s: Sys, e: Event)
    requires Shaped(s)
  {
    e.Yield? && Enabled(s, e) ==> SafeYield(s, e.core, e.now)
  }

  /** Every plain yield of the run is safe when it comes. */
  predicate SafeYields(s: Sys, run: seq<Event>)
    requires Shaped(s)
  {
    run == [] ||
    var before := run[..|run| - 1];
    SafeYields(s, before) && SafeStep(Run(s, before), run[|run| - 1])
  }

  lemma StepIsExclusive(s: Sys, e: Event)
    requires Exclusive(s) && SafeStep(s, e)
    ensures Exclusive(Step(s, e))
  {
    if Enabled(s, e) {
      match e
      case Tick(c, now) =>
        if s.cores[c] == 0 { TickIdleIsSafe(s, c, now); } else { TickNonIdleIsSafe(s, c, now); }
      case Yield(c, now) => YieldSafeExactly(s, c, now);
      case BlockAndYield(c, to, wakeup, now) => LeavingIsSafe(s, c, to, wakeup, now);
      case _ => QuietChangeIsSafe(s, Step(s, e).threads);
    }
  }

  /** In every run whose plain yields are safe, no thread but idle is on two cores, and every running thread is on
      exactly one. */
  lemma {:induction false} RunIsExclusive(s: Sys, run: seq<Event>)
    requires Exclusive(s) && SafeYields(s, run)
    ensures Exclusive(Run(s, run))
  {
    if run != [] {
      RunIsExclusive(s, run[..|run| - 1]);
      StepIsExclusive(Run(s, run[..|run| - 1]), run[|run| - 1]);
    }
  }

  // ----- What an unsafe yield costs -----

  /** A RUNNING thread that no core runs. */
  ghost predicate Lost(s: Sys, t: nat) {
    t != 0 && Is(s.threads, t, Running) && !HasCore(s.cores, t)
  }

  lemma UnsafeYieldLoses(s: Sys, c: nat, now: Time)
    requires Exclusive(s) && c < |s.cores| && s.cores[c] != 0 && !SafeYield(s, c, now)
    ensures Lost(Step(s, Yield(c, now)), s.cores[c])
  {
    var cur, woken := s.cores[c], WakeSleepers(s.threads, now);
    SearchFinds(woken, cur, 1);
    assert Is(woken, cur, Running);
  }

  lemma NobodysThread(s: Sys, t: nat, c: nat)
    requires Lost(s, t) && c < |s.cores|
    ensures s.cores[c] != t
  {}

  lemma CoreTakesOther(s: Sys, t: nat, c: nat, next: nat)
    requires Lost(s, t) && c < |s.cores| && next != t
    ensures !HasCore(s.cores[c := next], t)
  {}

  /** Nothing brings it back but the end of its process. */
  lemma StaysLost(s: Sys, e: Event, t: nat)
    requires Shaped(s) && Lost(s, t) && !e.EndProcess?
    ensures Lost(Step(s, e), t)
  {
    if Enabled(s, e) && (e.Tick? || e.Yield? || e.BlockAndYield?) {
      var c := e.core;
      var cur := s.cores[c];
      NobodysThread(s, t, c);
      var left := if e.BlockAndYield? then LeaveRunning(s.threads, cur, e.to, e.wakeup) else s.threads;
      var woken := WakeSleepers(left, e.now);
      assert Is(woken, t, Running);
      SearchFinds(woken, cur, 1);
      CoreTakesOther(s, t, c, Step(s, e).cores[c]);
    } else if Enabled(s, e) && e.EndCurrent? {
      NobodysThread(s, t, e.core);
    }
  }

  ghost predicate NoProcessEnds(run: seq<Event>) {
    forall i | 0 <= i < |run| :: !run[i].EndProcess?
  }

  /** A lost thread stays RUNNING and on no core in every run in which no process ends. */
  lemma {:induction false} LostForever(s: Sys, run: seq<Event>, t: nat)
    requires Shaped(s) && Lost(s, t) && NoProcessEnds(run)
    ensures Lost(Run(s, run), t)
  {
    if run != [] {
      LostForever(s, run[..|run| - 1], t);
      StaysLost(Run(s, run[..|run| - 1]), run[|run| - 1], t);
    }
  }

  /** Over every run in which no process ends, exclusive execution holds at the end if and only if every plain yield was
      safe. */
  lemma RunIsExclusiveExactly(s: Sys, run: seq<Event>)
    requires Exclusive(s) && NoProcessEnds(run)
    ensures Exclusive(Run(s, run)) <==> SafeYields(s, run)
  {
    if SafeYields(s, run) {
      RunIsExclusive(s, run);
    } else {
      var t := SomeoneIsLost(s, run);
      assert !HasCore(Run(s, run).cores, t);
    }
  }

  lemma {:induction false} SomeoneIsLost(s: Sys, run: seq<Event>) returns (t: nat)
    requires Exclusive(s) && NoProcessEnds(run) && !SafeYields(s, run)
    ensures Lost(Run(s, run), t)
  {
    var before, last := run[..|run| - 1], run[|run| - 1];
    var r := Run(s, before);
    if SafeYields(s, before) {
      RunIsExclusive(s, before);
      UnsafeYieldLoses(r, last.core, last.now);
      t := r.cores[last.core];
    } else {
      t := SomeoneIsLost(s, before);
      StaysLost(r, last, t);
    }
  }

  /** One core, one thread, and nobody else ready: a plain yield, as the mouse read makes, loses the thread. */
  lemma LonelyYieldLoses(now: Time) returns (s: Sys)
    ensures Exclusive(s) && s.cores == [2] && !SafeYield(s, 0, now) && Lost(Step(s, Yield(0, now)), 2)
  {
    s := Sys([Thread(0, Idle, now), Vacant, Thread(1, Running, now)], [2]);
    assert s.cores[0] == 2;
    forall t | 0 <= t < |s.threads| && Is(s.threads, t, Running) ensures HasCore(s.cores, t) {
      assert t == 2;
    }
    SearchFinds(WakeSleepers(s.threads, now), 2, 1);
    UnsafeYieldLoses(s, 0, now);
  }

  // ----- What every run keeps, unsafe yields or not -----

  lemma TickKeepsSeats(s: Sys, c: nat, now: Time)
    requires Seated(s) && c < |s.cores|
    ensures Seated(Step(s, Tick(c, now)))
  {
    var cur, woken := s.cores[c], s.(threads := WakeSleepers(s.threads, now));
    WakingKeepsSeats(s, now);
    assert OnCore(woken.threads, cur);
    var next := FirstReady(woken.threads, cur);
    SearchFinds(woken.threads, cur, 1);
    var left := Retire(woken.threads, cur, next > 0);
    if cur == 0 {
      SeatPasses(woken, c, if next > 0 then SetState(woken.threads, next, Running) else woken.threads, next);
    } else if next > 0 {
      SeatPasses(woken, c, SetState(left, next, Running), next);
    } else if !Is(left, cur, Running) {
      SeatPasses(woken, c, left, 0);
    } else {
      assert left == woken.threads;
    }
  }

  /** A yield, after the thread's own slot was changed in any way. */
  lemma YieldKeepsSeats(s: Sys, left: seq<Slot>, c: nat, now: Time)
    requires Seated(s) && c < |s.cores| && |left| == |s.threads|
    requires forall t | 0 <= t < |left| && t != s.cores[c] :: left[t] == s.threads[t]
    ensures Seated(TickYield(Sys(left, s.cores), c, now).0)
  {
    var cur, woken, idle := s.cores[c], WakeSleepers(left, now), s.(threads := WakeSleepers(s.threads, now));
    WakingKeepsSeats(s, now);
    var next := FirstReady(woken, cur);
    SearchFinds(woken, cur, 1);
    var retired := Retire(woken, cur, next > 1);
    if next > 1 {
      assert Is(idle.threads, next, Ready);
      SeatPasses(idle, c, SetState(retired, next, Running), next);
    } else {
      SeatPasses(idle, c, retired, 0);
    }
  }

  lemma QuietChangeKeepsSeats(s: Sys, threads: seq<Slot>)
    requires Seated(s) && |threads| == |s.threads|
    requires forall t | 0 <= t < |threads| :: OnCore(s.threads, t) ==> OnCore(threads, t)
    ensures Seated(s.(threads := threads))
  {
    forall c | 0 <= c < |s.cores| ensures OnCore(threads, s.cores[c]) {
      assert OnCore(s.threads, s.cores[c]);
    }
  }

  lemma StepKeepsSeats(s: Sys, e: Event)
    requires Seated(s)
    ensures Seated(Step(s, e))
  {
    if Enabled(s, e) {
      match e
      case Tick(c, now) => TickKeepsSeats(s, c, now);
      case Yield(c, now) => YieldKeepsSeats(s, s.threads, c, now);
      case BlockAndYield(c, to, wakeup, now) =>
        YieldKeepsSeats(s, LeaveRunning(s.threads, s.cores[c], to, wakeup), c, now);
      case _ => QuietChangeKeepsSeats(s, Step(s, e).threads);
    }
  }

  /** In every run, unsafe yields included, no thread but idle is on two cores, and what is on a core is RUNNING or was
      ended there. */
  lemma {:induction false} RunKeepsSeats(s: Sys, run: seq<Event>)
    requires Seated(s)
    ensures Seated(Run(s, run))
  {
    if run != [] {
      RunKeepsSeats(s, run[..|run| - 1]);
      StepKeepsSeats(Run(s, run[..|run| - 1]), run[|run| - 1]);
    }
  }

  // ----- Bounded waiting -----

  predicate TicksOn(e: Event, s: Sys, c: nat) {
    Enabled(s, e) && (e.Tick? || e.Yield? || e.BlockAndYield?) && e.core == c
  }

  /** A tick of core `c` that leaves `t` READY brings the core's position closer to `t`. */
  lemma TickComesCloser(s: Sys, e: Event, c: nat, t: nat)
    requires Seated(s) && c < |s.cores| && TicksOn(e, s, c) && 0 < t < |s.threads|
    requires Is(s.threads, t, Ready) && Is(Step(s, e).threads, t, Ready)
    ensures Distance(|s.threads|, Step(s, e).cores[c], t) < Distance(|s.threads|, s.cores[c], t)
  {
    var cur := s.cores[c];
    assert OnCore(s.threads, cur) && t != cur;
    if e.Tick? || e.Yield? {
      var woken := WakeSleepers(s.threads, e.now);
      SearchFinds(woken, cur, 1);
      assert Is(woken, t, Ready);
    } else {
      var woken := WakeSleepers(LeaveRunning(s.threads, cur, e.to, e.wakeup), e.now);
      SearchFinds(woken, cur, 1);
      assert Is(woken, t, Ready);
    }
  }

  lemma OtherStepsStay(s: Sys, e: Event, c: nat)
    requires Shaped(s) && c < |s.cores| && !TicksOn(e, s, c)
    ensures Step(s, e).cores[c] == s.cores[c]
  {}

  /** How often core `c` ticks in the run. */
  function Ticks(s: Sys, run: seq<Event>, c: nat): nat
    requires Shaped(s)
  {
    if run == [] then 0
    else
      var before := run[..|run| - 1];
      Ticks(s, before, c) + if TicksOn(run[|run| - 1], Run(s, before), c) then 1 else 0
  }

  ghost predicate StaysReady(s: Sys, run: seq<Event>, t: nat)
    requires Shaped(s)
  {
    Is(Run(s, run).threads, t, Ready) && (run == [] || StaysReady(s, run[..|run| - 1], t))
  }

  /** In every run, a thread that stays READY sees fewer ticks of any one core than its distance from that core's
      thread: within that many ticks, at most one less than the table's size, some core has taken it. */
  lemma {:induction false} BoundedWaiting(s: Sys, run: seq<Event>, c: nat, t: nat)
    requires Seated(s) && c < |s.cores| && 0 < t < |s.threads| && StaysReady(s, run, t)
    ensures Ticks(s, run, c) < Distance(|s.threads|, s.cores[c], t) < |s.threads|
    ensures Ticks(s, run, c) + Distance(|s.threads|, Run(s, run).cores[c], t) <= Distance(|s.threads|, s.cores[c], t)
  {
    RunKeepsSeats(s, run);
    assert OnCore(Run(s, run).threads, Run(s, run).cores[c]);
    if run != [] {
      var before, last := run[..|run| - 1], run[|run| - 1];
      var r := Run(s, before);
      BoundedWaiting(s, before, c, t);
      RunKeepsSeats(s, before);
      if TicksOn(last, r, c) {
        TickComesCloser(r, last, c, t);
      } else {
        OtherStepsStay(r, last, c);
      }
    }
  }

  // ----- Nobody is dropped -----

  predicate Active(threads: seq<Slot>, t: nat) {
    Is(threads, t, Ready) || Is(threads, t, Running)
  }

  /** The event does not block or end thread `t`. */
  predicate Spares(s: Sys, e: Event, t: nat) {
    match e
    case BlockAndYield(c, _, _, _) => c < |s.cores| ==> s.cores[c] != t
    case EndCurrent(c) => c < |s.cores| ==> s.cores[c] != t
    case EndProcess(pid) => t < |s.threads| && s.threads[t].Thread? ==> s.threads[t].pid != pid
    case _ => true
  }

  predicate SparedBy(s: Sys, run: seq<Event>, t: nat)
    requires Shaped(s)
  {
    run == [] ||
    var before := run[..|run| - 1];
    SparedBy(s, before, t) && Spares(Run(s, before), run[|run| - 1], t)
  }

  lemma TurnKeepsActive(before: seq<Slot>, after: seq<Slot>, cur: nat, next: nat, now: Time, t: nat)
    requires Turns(before, after, cur, next, now) && Active(before, t)
    ensures Active(after, t)
  {
    assert Turn(before[t], after[t], t, cur, next, now);
  }

  lemma StepKeepsActive(s: Sys, e: Event, t: nat)
    requires Shaped(s) && Active(s.threads, t) && Spares(s, e, t)
    ensures Active(Step(s, e).threads, t)
  {
    if Enabled(s, e) && (e.Tick? || e.Yield? || e.BlockAndYield?) {
      var c, r := e.core, Step(s, e);
      var cur := s.cores[c];
      if e.Tick? && cur == 0 {
        IdleTurns(s, c, e.now, r, r.cores[c]);
        TurnKeepsActive(s.threads, r.threads, 0, r.cores[c], e.now, t);
      } else if e.Tick? {
        NonIdleTurns(s, c, e.now, r, cur, r.cores[c]);
        TurnKeepsActive(s.threads, r.threads, cur, r.cores[c], e.now, t);
      } else {
        var left := if e.Yield? then s.threads else LeaveRunning(s.threads, cur, e.to, e.wakeup);
        YieldTurns(Sys(left, s.cores), c, e.now, r, cur, r.cores[c]);
        TurnKeepsActive(left, r.threads, cur, r.cores[c], e.now, t);
      }
    }
  }

  /** In every run that neither blocks nor ends it, a thread that was ready or running is so at the end. */
  lemma {:induction false} StaysActive(s: Sys, run: seq<Event>, t: nat)
    requires Shaped(s) && Active(s.threads, t) && SparedBy(s, run, t)
    ensures Active(Run(s, run).threads, t)
  {
    if run != [] {
      StaysActive(s, run[..|run| - 1], t);
      StepKeepsActive(Run(s, run[..|run| - 1]), run[|run| - 1], t);
    }
  }

  lemma {:induction false} RanSomeTime(s: Sys, run: seq<Event>, t: nat) returns (k: nat)
    requires Shaped(s) && Active(s.threads, t) && SparedBy(s, run, t) && !StaysReady(s, run, t)
    ensures k <= |run| && Is(Run(s, run[..k]).threads, t, Running)
  {
    StaysActive(s, run, t);
    assert run[..|run|] == run;
    if Is(Run(s, run).threads, t, Running) {
      k := |run|;
    } else {
      var before := run[..|run| - 1];
      k := RanSomeTime(s, before, t);
      assert before[..k] == run[..k];
    }
  }

  lemma {:induction false} SafeSoFar(s: Sys, run: seq<Event>, k: nat)
    requires Shaped(s) && SafeYields(s, run) && k <= |run|
    ensures SafeYields(s, run[..k])
  {
    if k < |run| {
      SafeSoFar(s, run[..|run| - 1], k);
      assert run[..|run| - 1][..k] == run[..k];
    } else {
      assert run[..k] == run;
    }
  }

  /** A thread that is preempted gets a core again: in every run with safe yields that neither blocks nor ends it, as
      soon as any one core has ticked as often as there are other slots, some core has run it. */
  lemma RunsAgain(s: Sys, run: seq<Event>, c: nat, t: nat) returns (k: nat)
    requires Exclusive(s) && SafeYields(s, run) && c < |s.cores| && 0 < t < |s.threads|
    requires Active(s.threads, t) && SparedBy(s, run, t) && Ticks(s, run, c) >= |s.threads| - 1
    ensures k <= |run| && Is(Run(s, run[..k]).threads, t, Running) && HasCore(Run(s, run[..k]).cores, t)
  {
    if StaysReady(s, run, t) {
      BoundedWaiting(s, run, c, t);
    }
    k := RanSomeTime(s, run, t);
    SafeSoFar(s, run, k);
    RunIsExclusive(s, run[..k]);
  }

  // ----- Sleepers, and threads that have ended -----

  function Micros(t: Time): nat {
    t.sec * 1000000 + t.usec
  }

  /** `_later` compares the two clock readings as numbers of microseconds. */
  lemma ReachedIsOrder(now: Time, wakeup: Time)
    requires now.usec < 1000000 && wakeup.usec < 1000000
    ensures now.Reached(wakeup) <==> Micros(wakeup) <= Micros(now)
  {}

  lemma TurnWakes(before: seq<Slot>, after: seq<Slot>, cur: nat, next: nat, now: Time, t: nat)
    requires Turns(before, after, cur, next, now) && Is(after, t, BlockedOther)
    ensures before[t] == after[t] && !Due(after[t], now)
  {
    assert Turn(before[t], after[t], t, cur, next, now);
  }

  /** After a tick or a yield of any core nobody sleeps whose time has come. */
  lemma NobodyOversleeps(s: Sys, e: Event, c: nat, t: nat)
    requires Shaped(s) && c < |s.cores| && TicksOn(e, s, c) && Is(Step(s, e).threads, t, BlockedOther)
    requires e.now.usec < 1000000 && Step(s, e).threads[t].wakeup.usec < 1000000
    ensures Micros(e.now) < Micros(Step(s, e).threads[t].wakeup)
  {
    var cur, r := s.cores[c], Step(s, e);
    if e.Tick? && cur == 0 {
      IdleTurns(s, c, e.now, r, r.cores[c]);
      TurnWakes(s.threads, r.threads, 0, r.cores[c], e.now, t);
    } else if e.Tick? {
      NonIdleTurns(s, c, e.now, r, cur, r.cores[c]);
      TurnWakes(s.threads, r.threads, cur, r.cores[c], e.now, t);
    } else {
      var left := if e.Yield? then s.threads else LeaveRunning(s.threads, cur, e.to, e.wakeup);
      YieldTurns(Sys(left, s.cores), c, e.now, r, cur, r.cores[c]);
      TurnWakes(left, r.threads, cur, r.cores[c], e.now, t);
    }
  }

  predicate Gone(threads: seq<Slot>, t: nat) {
    Is(threads, t, EndedNotCleaned) || Is(threads, t, Dead)
  }

  /** A thread ended on its core is dead after the core's next tick or yield, and leaves the core. */
  lemma EndedDies(s: Sys, e: Event, c: nat)
    requires Seated(s) && c < |s.cores| && s.cores[c] != 0 && Is(s.threads, s.cores[c], EndedNotCleaned)
    requires (e.Tick? || e.Yield?) && e.core == c
    ensures Is(Step(s, e).threads, s.cores[c], Dead) && Step(s, e).cores[c] != s.cores[c]
  {
    var cur, r := s.cores[c], Step(s, e);
    if e.Tick? {
      NonIdleTurns(s, c, e.now, r, cur, r.cores[c]);
    } else {
      YieldTurns(s, c, e.now, r, cur, r.cores[c]);
    }
    assert Turn(s.threads[cur], r.threads[cur], cur, cur, r.cores[c], e.now);
    StepKeepsSeats(s, e);
    assert OnCore(r.threads, r.cores[c]);
  }

  /** When a process ends, exactly its threads are ended, on a core or not. */
  lemma ProcessEnds(s: Sys, pid: nat, t: nat)
    requires Shaped(s) && t < |s.threads|
    ensures var x, y := s.threads[t], Step(s, EndProcess(pid)).threads[t];
            if x.Thread? && x.pid == pid && x.state != NotExist then y == x.(state := EndedNotCleaned) else y == x
  {}

  predicate NeverBlocks(s: Sys, run: seq<Event>, t: nat)
    requires Shaped(s)
  {
    run == [] ||
    var before, last := run[..|run| - 1], run[|run| - 1];
    NeverBlocks(s, before, t) && (last.BlockAndYield? ==> Spares(Run(s, before), last, t))
  }

  lemma StepKeepsGone(s: Sys, e: Event, t: nat)
    requires Shaped(s) && Gone(s.threads, t) && (e.BlockAndYield? ==> Spares(s, e, t))
    ensures Gone(Step(s, e).threads, t)
  {
    if Enabled(s, e) && (e.Tick? || e.Yield? || e.BlockAndYield?) {
      var c, r := e.core, Step(s, e);
      var cur := s.cores[c];
      if e.Tick? && cur == 0 {
        IdleTurns(s, c, e.now, r, r.cores[c]);
        assert Turn(s.threads[t], r.threads[t], t, 0, r.cores[c], e.now);
      } else if e.Tick? {
        NonIdleTurns(s, c, e.now, r, cur, r.cores[c]);
        assert Turn(s.threads[t], r.threads[t], t, cur, r.cores[c], e.now);
      } else {
        var left := if e.Yield? then s.threads else LeaveRunning(s.threads, cur, e.to, e.wakeup);
        YieldTurns(Sys(left, s.cores), c, e.now, r, cur, r.cores[c]);
        assert Turn(left[t], r.threads[t], t, cur, r.cores[c], e.now);
      }
    }
  }

  /** A thread that has ended never runs again, in any run in which it does not itself block on the way out. */
  lemma {:induction false} GoneForever(s: Sys, run: seq<Event>, t: nat)
    requires Shaped(s) && Gone(s.threads, t) && NeverBlocks(s, run, t)
    ensures Gone(Run(s, run).threads, t)
  {
    if run != [] {
      GoneForever(s, run[..|run| - 1], t);
      StepKeepsGone(Run(s, run[..|run| - 1]), run[|run| - 1], t);
    }
  }

  // ----- Blocking and waking -----

  /** A thread that blocks is in the state it asked for, with its wake-up time, and off its core; if its time has
      already come it is ready. */
  lemma BlockTakesEffect(s: Sys, c: nat, to: State, wakeup: Time, now: Time)
    requires Seated(s) && Enabled(s, BlockAndYield(c, to, wakeup, now)) && s.threads[s.cores[c]].Thread?
    ensures var cur, r := s.cores[c], Step(s, BlockAndYield(c, to, wakeup, now));
            var x := s.threads[cur].(state := to, wakeup := wakeup);
            r.cores[c] != cur && r.threads[cur] == if Due(x, now) then x.(state := Ready) else x
  {
    var cur, r := s.cores[c], Step(s, BlockAndYield(c, to, wakeup, now));
    var left := LeaveRunning(s.threads, cur, to, wakeup);
    YieldTurns(Sys(left, s.cores), c, now, r, cur, r.cores[c]);
    assert Turn(left[cur], r.threads[cur], cur, cur, r.cores[c], now);
  }

  /** What a step does to a blocked thread: only its own wake-up or, for a sleeper, the time makes it ready, and only
      the end of its process ends it. */
  lemma BlockedUntilWoken(s: Sys, e: Event, t: nat)
    requires Seated(s) && 0 < t && (Is(s.threads, t, Blocked) || Is(s.threads, t, BlockedOther))
    requires e != Wake(t) && !(e.EndProcess? && e.pid == s.threads[t].pid)
    ensures var x, y := s.threads[t], Step(s, e).threads[t];
            || y == x
            || (Due(x, e.now) && (y == x.(state := Ready) || y == x.(state := Running)))
  {
    forall c | 0 <= c < |s.cores| ensures s.cores[c] != t {
      assert OnCore(s.threads, s.cores[c]);
    }
    if Enabled(s, e) && (e.Tick? || e.Yield? || e.BlockAndYield?) {
      var c, r := e.core, Step(s, e);
      var cur := s.cores[c];
      if e.Tick? && cur == 0 {
        IdleTurns(s, c, e.now, r, r.cores[c]);
        assert Turn(s.threads[t], r.threads[t], t, 0, r.cores[c], e.now);
      } else if e.Tick? {
        NonIdleTurns(s, c, e.now, r, cur, r.cores[c]);
        assert Turn(s.threads[t], r.threads[t], t, cur, r.cores[c], e.now);
      } else {
        var left := if e.Yield? then s.threads else LeaveRunning(s.threads, cur, e.to, e.wakeup);
        YieldTurns(Sys(left, s.cores), c, e.now, r, cur, r.cores[c]);
        assert Turn(left[t], r.threads[t], t, cur, r.cores[c], e.now);
      }
    }
  }

  /** A thread that is woken or started is ready or running from then on, until it blocks or ends. */
  lemma WokenGoesOn(s: Sys, e: Event, run: seq<Event>, t: nat)
    requires Shaped(s) && Enabled(s, e) && (e == Wake(t) || (e.Spawn? && e.tid == t)) && SparedBy(Step(s, e), run, t)
    ensures Active(Run(Step(s, e), run).threads, t)
  {
    StaysActive(Step(s, e), run, t);
  }

  /** A thread that ends itself is dead and off its core after that core's next tick. */
  lemma EndsAtNextTick(s: Sys, c: nat, now: Time)
    requires Seated(s) && c < |s.cores| && s.cores[c] != 0
    ensures var r := Step(Step(s, EndCurrent(c)), Tick(c, now));
            Is(r.threads, s.cores[c], Dead) && r.cores[c] != s.cores[c]
  {
    assert OnCore(s.threads, s.cores[c]);
    StepKeepsSeats(s, EndCurrent(c));
    EndedDies(Step(s, EndCurrent(c)), Tick(c, now), c);
  }
}
