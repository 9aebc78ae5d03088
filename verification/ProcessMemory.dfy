/** What a process asks of its address space: heap, anonymous mappings (core/syscall/syscall2.h) and
    thread stacks (core/scheduler.h). */
module ProcessMemory {
  import opened PageTables
  import opened AddressSpaces

  const EINVAL := 22

  function DivCeil(a: nat, b: nat): (q: nat)
    requires b > 0
    ensures a <= q * b < a + b
  {
    if a % b > 0 then a / b + 1 else a / b
  }

  ghost predicate AllGoverned(tags: Tags, root: nat) {
    forall p {:trigger Governed(tags, root, p)} | 0 <= p < LOW_PAGES :: Governed(tags, root, p)
  }

  /** A mapped page keeps its word; an unmapped one gets a frame that was free. */
  ghost predicate PageMapped(s: Snap, s': Snap, root: nat, p: nat) {
    var was, word := Translate(s.mem, root, p), Translate(s'.mem, root, p);
    if was != 0 then word == was
    else
      var d := FrameOf(word);
      word == d * 4096 + 7 && d < |s.used| && !s.used[d] && d < |s'.used| && s'.used[d]
  }

  /** Two pages that were both unmapped now have different frames. */
  ghost predicate Apart(s: Snap, s': Snap, root: nat, p: nat, q: nat) {
    Translate(s.mem, root, p) == 0 && Translate(s.mem, root, q) == 0 ==>
      FrameOf(Translate(s'.mem, root, p)) != FrameOf(Translate(s'.mem, root, q))
  }

  /** Pages `lo..hi` are mapped, the new ones to frames that were free and differ pairwise. */
  ghost predicate RangeMapped(s: Snap, s': Snap, root: nat, lo: nat, hi: nat) {
    && (forall p {:trigger PageMapped(s, s', root, p)} | lo <= p < hi :: PageMapped(s, s', root, p))
    && (forall p, q {:trigger Apart(s, s', root, p, q)} | lo <= p < q < hi :: Apart(s, s', root, p, q))
  }

  ghost predicate RangeClear(mem: Memory, root: nat, lo: nat, hi: nat) {
    forall p | lo <= p < hi :: Translate(mem, root, p) == 0
  }

  lemma SameOutsideComposes(s0: Snap, s1: Snap, s2: Snap, root: nat,
                            a: nat, b: nat, c: nat, d: nat, lo: nat, hi: nat)
    requires SameOutside(s0, s1, root, a, b) && SameOutside(s1, s2, root, c, d)
    requires lo <= a && b <= hi && lo <= c && d <= hi
    ensures SameOutside(s0, s2, root, lo, hi)
  {}

  /** A page mapped earlier stays as it is while another page is mapped. */
  lemma StaysMapped(s0: Snap, s1: Snap, s2: Snap, root: nat, lo: nat, hi: nat, p: nat, q: nat)
    requires Evolves(s1, s2)
    requires SameOutside(s0, s1, root, lo, hi) && SameOutside(s1, s2, root, p, p + 1)
    requires PageMapped(s0, s1, root, q) && Governed(s0.tags, root, q) && q != p
    ensures Translate(s2.mem, root, q) == Translate(s1.mem, root, q) && PageMapped(s0, s2, root, q)
  {
    assert Governed(s1.tags, root, q);
  }

  /** A page mapped now gets none of the frames given out earlier. */
  lemma NewlyMapped(s0: Snap, s1: Snap, s2: Snap, root: nat, lo: nat, hi: nat, p: nat)
    requires Evolves(s0, s1) && SameOutside(s0, s1, root, lo, hi)
    requires PageMapped(s1, s2, root, p) && Governed(s0.tags, root, p) && !(lo <= p < hi)
    ensures PageMapped(s0, s2, root, p)
    ensures Translate(s0.mem, root, p) == 0 ==>
              var d := FrameOf(Translate(s2.mem, root, p)); d < |s1.used| && !s1.used[d]
  {}

  lemma NewlyApart(s0: Snap, s1: Snap, s2: Snap, root: nat, lo: nat, hi: nat, p: nat, q: nat)
    requires Evolves(s0, s1) && Evolves(s1, s2)
    requires SameOutside(s0, s1, root, lo, hi) && SameOutside(s1, s2, root, p, p + 1)
    requires PageMapped(s1, s2, root, p) && PageMapped(s0, s1, root, q)
    requires Governed(s0.tags, root, p) && Governed(s0.tags, root, q) && !(lo <= p < hi) && q != p
    ensures Apart(s0, s2, root, p, q) && Apart(s0, s2, root, q, p)
  {
    NewlyMapped(s0, s1, s2, root, lo, hi, p);
    StaysMapped(s0, s1, s2, root, lo, hi, p, q);
  }

  lemma StaysApart(s0: Snap, s1: Snap, s2: Snap, root: nat, lo: nat, hi: nat, p: nat, q: nat, q': nat)
    requires Evolves(s1, s2)
    requires SameOutside(s0, s1, root, lo, hi) && SameOutside(s1, s2, root, p, p + 1)
    requires PageMapped(s0, s1, root, q) && PageMapped(s0, s1, root, q') && Apart(s0, s1, root, q, q')
    requires Governed(s0.tags, root, q) && Governed(s0.tags, root, q') && q != p && q' != p
    ensures Apart(s0, s2, root, q, q')
  {
    StaysMapped(s0, s1, s2, root, lo, hi, p, q);
    StaysMapped(s0, s1, s2, root, lo, hi, p, q');
  }

  /** One more page at either end of a mapped range. */
  lemma RangeGrows(s0: Snap, s1: Snap, s2: Snap, root: nat, lo: nat, hi: nat, p: nat)
    requires Evolves(s0, s1) && Evolves(s1, s2)
    requires SameOutside(s0, s1, root, lo, hi) && RangeMapped(s0, s1, root, lo, hi)
    requires SameOutside(s1, s2, root, p, p + 1) && PageMapped(s1, s2, root, p)
    requires AllGoverned(s0.tags, root) && lo <= hi <= LOW_PAGES && p < LOW_PAGES && (p == hi || p + 1 == lo)
    ensures RangeMapped(s0, s2, root, if p == hi then lo else p, if p == hi then p + 1 else hi)
  {
    forall q | (lo <= q < hi) || q == p ensures PageMapped(s0, s2, root, q) {
      assert Governed(s0.tags, root, q);
      if q == p {
        NewlyMapped(s0, s1, s2, root, lo, hi, p);
      } else {
        assert PageMapped(s0, s1, root, q);
        StaysMapped(s0, s1, s2, root, lo, hi, p, q);
      }
    }
    forall q, q' | ((lo <= q < hi) || q == p) && ((lo <= q' < hi) || q' == p)
      && q < q' ensures Apart(s0, s2, root, q, q') {
      assert Governed(s0.tags, root, q) && Governed(s0.tags, root, q');
      if q == p {
        assert PageMapped(s0, s1, root, q');
        NewlyApart(s0, s1, s2, root, lo, hi, p, q');
      } else if q' == p {
        assert PageMapped(s0, s1, root, q);
        NewlyApart(s0, s1, s2, root, lo, hi, p, q);
      } else {
        assert PageMapped(s0, s1, root, q) && PageMapped(s0, s1, root, q') && Apart(s0, s1, root, q, q');
        StaysApart(s0, s1, s2, root, lo, hi, p, q, q');
      }
    }
  }

  lemma ClearGrows(s1: Snap, s2: Snap, root: nat, lo: nat, hi: nat, p: nat)
    requires RangeClear(s1.mem, root, lo, hi) && SameOutside(s1, s2, root, p, p + 1) && Translate(s2.mem, root, p) == 0
    requires AllGoverned(s1.tags, root) && lo <= hi <= LOW_PAGES && p < LOW_PAGES && (p == hi || p + 1 == lo)
    ensures RangeClear(s2.mem, root, if p == hi then lo else p, if p == hi then p + 1 else hi)
  {
    forall q | lo <= q < hi ensures Translate(s2.mem, root, q) == 0 {
      assert Governed(s1.tags, root, q);
    }
  }

  lemma GovernedStays(s0: Snap, s1: Snap, root: nat, lo: nat, hi: nat)
    requires AllGoverned(s0.tags, root) && SameOutside(s0, s1, root, lo, hi)
    ensures AllGoverned(s1.tags, root)
  {
    forall p | 0 <= p < LOW_PAGES ensures Governed(s1.tags, root, p) {
      assert Governed(s0.tags, root, p);
    }
  }

  /** Since `s0`, exactly the pages of `lo..hi` have been unmapped; no frame changed hands. */
  ghost predicate ClearedSince(s0: Snap, s1: Snap, root: nat, lo: nat, hi: nat) {
    && AllGoverned(s0.tags, root) && AllGoverned(s1.tags, root) && Evolves(s0, s1) && s1.used == s0.used
    && SameOutside(s0, s1, root, lo, hi) && RangeClear(s1.mem, root, lo, hi)
    && NoNewEmpty(s0, s1)
  }

  lemma ClearedNext(s0: Snap, s1: Snap, s2: Snap, root: nat, lo: nat, hi: nat, p: nat)
    requires ClearedSince(s0, s1, root, lo, hi) && ClearedSince(s1, s2, root, p, p + 1)
    requires lo <= hi <= LOW_PAGES && p < LOW_PAGES && (p == hi || p + 1 == lo)
    ensures ClearedSince(s0, s2, root, if p == hi then lo else p, if p == hi then p + 1 else hi)
  {
    EvolvesTransitively(s0, s1, s2);
    NoNewEmptyChains(s0, s1, s2);
    ClearGrows(s1, s2, root, lo, hi, p);
    SameOutsideComposes(s0, s1, s2, root, lo, hi, p, p + 1, if p == hi then lo else p, if p == hi then p + 1 else hi);
  }

  /** Since `s0`, exactly the unmapped pages of `lo..hi` have been mapped. */
  ghost predicate MappedSince(s0: Snap, s1: Snap, root: nat, lo: nat, hi: nat) {
    && AllGoverned(s0.tags, root) && AllGoverned(s1.tags, root) && Evolves(s0, s1)
    && SameOutside(s0, s1, root, lo, hi) && RangeMapped(s0, s1, root, lo, hi)
  }

  lemma MappedNext(s0: Snap, s1: Snap, s2: Snap, root: nat, lo: nat, hi: nat, p: nat)
    requires MappedSince(s0, s1, root, lo, hi) && MappedSince(s1, s2, root, p, p + 1)
    requires lo <= hi <= LOW_PAGES && p < LOW_PAGES && (p == hi || p + 1 == lo)
    ensures MappedSince(s0, s2, root, if p == hi then lo else p, if p == hi then p + 1 else hi)
  {
    EvolvesTransitively(s0, s1, s2);
    assert PageMapped(s1, s2, root, p);
    RangeGrows(s0, s1, s2, root, lo, hi, p);
    SameOutsideComposes(s0, s1, s2, root, lo, hi, p, p + 1, if p == hi then lo else p, if p == hi then p + 1 else hi);
  }

  /** What mapping one page does to the process. */
  lemma PageIsMapped(s0: Snap, s1: Snap, root: nat, page: nat, phys: nat)
    requires AllGoverned(s0.tags, root) && page < LOW_PAGES && Evolves(s0, s1)
    requires SameOutside(s0, s1, root, page, page + 1) && GivesPage(s0, s1, root, page, phys)
    ensures MappedSince(s0, s1, root, page, page + 1)
  {
    GovernedStays(s0, s1, root, page, page + 1);
    assert PageMapped(s0, s1, root, page);
  }

  lemma PagedAfterMap(s0: Snap, s1: Snap, root: nat, lo: nat, hi: nat, p: nat)
    requires SameOutside(s0, s1, root, lo, hi) && RangeMapped(s0, s1, root, lo, hi) && Governed(s0.tags, root, p)
    ensures Translate(s1.mem, root, p) != 0 <==> Translate(s0.mem, root, p) != 0 || lo <= p < hi
  {
    if lo <= p < hi { assert PageMapped(s0, s1, root, p); }
  }

  lemma PagedAfterClear(s0: Snap, s1: Snap, root: nat, lo: nat, hi: nat, p: nat)
    requires SameOutside(s0, s1, root, lo, hi) && RangeClear(s1.mem, root, lo, hi) && Governed(s0.tags, root, p)
    ensures Translate(s1.mem, root, p) != 0 <==> Translate(s0.mem, root, p) != 0 && !(lo <= p < hi)
  {}

  /** Of the pages `lo..limit`, exactly those below `mid` are mapped. */
  ghost predicate ExactRun(mem: Memory, root: nat, lo: nat, mid: nat, limit: nat) {
    forall p | lo <= p < limit :: Translate(mem, root, p) != 0 <==> p < mid
  }

  lemma ExactAfterMap(s0: Snap, s1: Snap, root: nat, lo: nat, mid: nat, mid': nat, limit: nat)
    requires MappedSince(s0, s1, root, mid, mid') && ExactRun(s0.mem, root, lo, mid, limit)
    requires mid <= mid' <= limit <= LOW_PAGES
    ensures ExactRun(s1.mem, root, lo, mid', limit)
  {
    forall p | lo <= p < limit ensures Translate(s1.mem, root, p) != 0 <==> p < mid' {
      assert Governed(s0.tags, root, p);
      PagedAfterMap(s0, s1, root, mid, mid', p);
    }
  }

  lemma ExactAfterClear(s0: Snap, s1: Snap, root: nat, lo: nat, mid: nat, mid': nat, limit: nat)
    requires ClearedSince(s0, s1, root, mid', mid) && ExactRun(s0.mem, root, lo, mid, limit)
    requires mid' <= mid <= limit <= LOW_PAGES
    ensures ExactRun(s1.mem, root, lo, mid', limit)
  {
    forall p | lo <= p < limit ensures Translate(s1.mem, root, p) != 0 <==> p < mid' {
      assert Governed(s0.tags, root, p);
      PagedAfterClear(s0, s1, root, mid', mid, p);
    }
  }

  ghost predicate FreeRun(mem: Memory, root: nat, start: nat, count: nat) {
    RangeClear(mem, root, start, start + count)
  }

  /** The lowest page above page 0 from which `count` pages are unmapped. */
  ghost predicate LowestFreeRun(mem: Memory, root: nat, start: nat, count: nat) {
    && 1 <= start < LOW_PAGES - 1 && FreeRun(mem, root, start, count)
    && forall i | 1 <= i < start :: !FreeRun(mem, root, i, count)
  }

  /** A free region of `count` pages from `start` that the search can find, below HM. */
  ghost predicate Room(mem: Memory, root: nat, start: nat, count: nat) {
    1 <= start < LOW_PAGES - 1 && start + count <= LOW_PAGES && FreeRun(mem, root, start, count)
  }

  /** The address an `mmap` of `count` pages uses: the hint, else the lowest free region, else 0 when there is none. */
  ghost predicate Chosen(mem: Memory, root: nat, hint: nat, count: nat, at: nat) {
    if hint != 0 then at == hint
    else if at != 0 then at % 4096 == 0 && LowestFreeRun(mem, root, at / 4096, count)
    else forall i | 1 <= i < LOW_PAGES - 1 :: !FreeRun(mem, root, i, count)
  }

  /** The pages from the chosen address on lie below HM. */
  ghost predicate FitsBelow(mem: Memory, root: nat, hint: nat, count: nat) {
    && hint / 4096 + count <= LOW_PAGES
    && (hint == 0 ==> forall i: nat | LowestFreeRun(mem, root, i, count) :: i + count <= LOW_PAGES)
  }

  /** Mapping a range that was clear and unmapping it again restores every translation. */
  lemma MapThenClear(s0: Snap, s1: Snap, s2: Snap, root: nat, lo: nat, hi: nat)
    requires MappedSince(s0, s1, root, lo, hi) && ClearedSince(s1, s2, root, lo, hi) && RangeClear(s0.mem, root, lo, hi)
    ensures SameTranslations(s0, s2)
  {}

  // ----- Thread stacks: slots of five pages, the top one never mapped -----

  /** Page `k` below the top of stack slot `s`; slot 0 ends at HM - 4096. */
  function SlotPage(s: nat, k: nat): int {
    LOW_PAGES - 1 - 5 * s - k
  }

  ghost predicate SlotPageOk(mem: Memory, root: nat, live: set<nat>, s: nat, k: nat)
    requires SlotPage(s, k) >= 0
  {
    Translate(mem, root, SlotPage(s, k)) != 0 <==> s in live && k > 0
  }

  /** Each slot has its four stack pages mapped if its thread lives and none otherwise. */
  ghost predicate StacksExact(mem: Memory, root: nat, live: set<nat>, slots: nat) {
    && 5 * slots < LOW_PAGES
    && forall s: nat, k: nat {:trigger SlotPageOk(mem, root, live, s, k)} | s < slots && k < 5 ::
        SlotPageOk(mem, root, live, s, k)
  }

  lemma StackPageAdded(s0: Snap, s1: Snap, root: nat, live: set<nat>, slots: nat, s: nat, t: nat, k: nat)
    requires 5 * slots < LOW_PAGES && s < slots && t < slots && k < 5 && SlotPageOk(s0.mem, root, live, t, k)
    requires MappedSince(s0, s1, root, SlotPage(s, 4), SlotPage(s, 0))
    ensures SlotPageOk(s1.mem, root, live + {s}, t, k)
  {
    assert Governed(s0.tags, root, SlotPage(t, k));
    PagedAfterMap(s0, s1, root, SlotPage(s, 4), SlotPage(s, 0), SlotPage(t, k));
  }

  lemma StackAdded(s0: Snap, s1: Snap, root: nat, live: set<nat>, slots: nat, s: nat)
    requires StacksExact(s0.mem, root, live, slots) && s < slots
    requires MappedSince(s0, s1, root, SlotPage(s, 4), SlotPage(s, 0))
    ensures StacksExact(s1.mem, root, live + {s}, slots)
  {
    forall t: nat, k: nat | t < slots && k < 5 ensures SlotPageOk(s1.mem, root, live + {s}, t, k) {
      assert SlotPageOk(s0.mem, root, live, t, k);
      StackPageAdded(s0, s1, root, live, slots, s, t, k);
    }
  }

  lemma StackPageRemoved(s0: Snap, s1: Snap, root: nat, live: set<nat>, slots: nat, s: nat, t: nat, k: nat)
    requires 5 * slots < LOW_PAGES && s < slots && t < slots && k < 5 && SlotPageOk(s0.mem, root, live, t, k)
    requires ClearedSince(s0, s1, root, SlotPage(s, 4), SlotPage(s, 0))
    ensures SlotPageOk(s1.mem, root, live - {s}, t, k)
  {
    assert Governed(s0.tags, root, SlotPage(t, k));
    PagedAfterClear(s0, s1, root, SlotPage(s, 4), SlotPage(s, 0), SlotPage(t, k));
  }

  lemma StackRemoved(s0: Snap, s1: Snap, root: nat, live: set<nat>, slots: nat, s: nat)
    requires StacksExact(s0.mem, root, live, slots) && s < slots
    requires ClearedSince(s0, s1, root, SlotPage(s, 4), SlotPage(s, 0))
    ensures StacksExact(s1.mem, root, live - {s}, slots)
  {
    forall t: nat, k: nat | t < slots && k < 5 ensures SlotPageOk(s1.mem, root, live - {s}, t, k) {
      assert SlotPageOk(s0.mem, root, live, t, k);
      StackPageRemoved(s0, s1, root, live, slots, s, t, k);
    }
  }

  // ----- Tables of live stacks -----

  datatype StackOp = Start | Stop(which: nat)

  ghost function Live(slot: seq<nat>): (live: set<nat>) {
    set s | s in slot
  }

  /** Slots are numbered from the top, so this is the highest one without a stack. */
  ghost predicate LowestVacant(live: set<nat>, s: nat) {
    s !in live && forall t: nat | t < s :: t in live
  }

  /** The stack tops of the live threads, each in a slot of its own. */
  ghost predicate StackTable(tops: seq<nat>, slot: seq<nat>, slots: nat) {
    && |tops| == |slot|
    && (forall i | 0 <= i < |slot| :: slot[i] < slots && tops[i] == SlotPage(slot[i], 0) * 4096)
    && (forall i, j | 0 <= i < j < |slot| :: slot[i] != slot[j])
  }

  /** Since `s0`, no page outside the slots has moved, in this process or in any other. */
  ghost predicate OnlyStacksMoved(s0: Snap, s1: Snap, root: nat, slots: nat) {
    5 * slots < LOW_PAGES && Evolves(s0, s1) && SameOutside(s0, s1, root, LOW_PAGES - 5 * slots, LOW_PAGES)
  }

  lemma StackMoves(s0: Snap, s1: Snap, root: nat, slots: nat, s: nat)
    requires 5 * slots < LOW_PAGES && s < slots && Evolves(s0, s1)
    requires SameOutside(s0, s1, root, SlotPage(s, 4), SlotPage(s, 0))
    ensures OnlyStacksMoved(s0, s1, root, slots)
  {}

  lemma StacksMoveAgain(s0: Snap, s1: Snap, s2: Snap, root: nat, slots: nat)
    requires OnlyStacksMoved(s0, s1, root, slots) && OnlyStacksMoved(s1, s2, root, slots)
    ensures OnlyStacksMoved(s0, s2, root, slots)
  {
    EvolvesTransitively(s0, s1, s2);
    SameOutsideComposes(s0, s1, s2, root, LOW_PAGES - 5 * slots, LOW_PAGES, LOW_PAGES - 5 * slots, LOW_PAGES,
                        LOW_PAGES - 5 * slots, LOW_PAGES);
  }

  /** The number of live threads after a run that starts with `n`. */
  ghost function Count(n: nat, ops: seq<StackOp>): (m: nat) {
    if ops == [] then n else CountStep(Count(n, ops[..|ops| - 1]), ops[|ops| - 1])
  }

  ghost function CountStep(n: nat, op: StackOp): (m: nat) {
    match op
    case Start => n + 1
    case Stop(k) => if k < n then n - 1 else n
  }

  /** Every thread start of the run finds a slot without a stack. */
  ghost predicate Roomy(n: nat, ops: seq<StackOp>, slots: nat) {
    ops == [] ||
    var before, last := ops[..|ops| - 1], ops[|ops| - 1];
    Roomy(n, before, slots) && (last.Start? ==> Count(n, before) < slots)
  }

  lemma {:induction false} RoomyPrefix(n: nat, ops: seq<StackOp>, slots: nat, k: nat)
    requires Roomy(n, ops, slots) && k <= |ops|
    ensures Roomy(n, ops[..k], slots)
  {
    if k == |ops| {
      assert ops[..k] == ops;
    } else {
      RoomyPrefix(n, ops[..|ops| - 1], slots, k);
      assert ops[..|ops| - 1][..k] == ops[..k];
    }
  }

  /** Fewer live stacks than slots leave a slot vacant. */
  lemma {:induction false} Vacancy(slot: seq<nat>, slots: nat) returns (v: nat)
    requires |slot| < slots
    ensures v < slots && v !in slot
    decreases slots
  {
    v := slots - 1;
    if v in slot {
      var i :| 0 <= i < |slot| && slot[i] == v;
      var less := slot[..i] + slot[i + 1..];
      v := Vacancy(less, slots - 1);
      forall j | 0 <= j < |slot| ensures slot[j] != v {
        assert j != i ==> slot[j] == less[if j < i then j else j - 1];
      }
    }
  }

  lemma LiveWithout(slot: seq<nat>, k: nat, less: seq<nat>)
    requires k < |slot| && less == slot[..k] + slot[k + 1..]
    requires forall i, j | 0 <= i < j < |slot| :: slot[i] != slot[j]
    ensures Live(less) == Live(slot) - {slot[k]}
  {
    forall s | s in Live(slot) && s != slot[k] ensures s in less {
      var j :| 0 <= j < |slot| && slot[j] == s;
      assert less[if j < k then j else j - 1] == s;
    }
  }

  /** Between the pages of two stacks lies a page that is not mapped. */
  lemma StacksAreGuarded(mem: Memory, root: nat, live: set<nat>, slots: nat, s: nat, t: nat, j: nat, k: nat)
    requires StacksExact(mem, root, live, slots) && s < t < slots && 1 <= j < 5 && 1 <= k < 5
    ensures exists guard: nat :: SlotPage(t, k) < guard < SlotPage(s, j) && Translate(mem, root, guard) == 0
  {
    assert SlotPageOk(mem, root, live, t, 0);
    assert SlotPage(t, k) < SlotPage(t, 0) < SlotPage(s, j);
  }

  class Process {
    const ram: PhysicalMemory
    const pid: nat
    var heapStart: nat
    var heapEnd: nat

    constructor (ram: PhysicalMemory, pid: nat, heapStart: nat)
      requires ram.Valid() && pid in ram.cr3 && AllGoverned(ram.tags, ram.cr3[pid])
      ensures this.ram == ram && this.pid == pid && Valid() && this.heapStart == heapEnd == heapStart
    {
      this.ram, this.pid := ram, pid;
      this.heapStart, heapEnd := heapStart, heapStart;
    }

    ghost predicate Valid()
      reads this, ram
    {
      ram.Valid() && pid in ram.cr3 && AllGoverned(ram.tags, ram.cr3[pid])
    }

    ghost function Root(): nat
      requires pid in ram.cr3
      reads this, ram
    {
      ram.cr3[pid]
    }

    predicate Paged(page: nat)
      requires pid in ram.cr3
      reads this, ram
    {
      Translate(ram.mem, ram.cr3[pid], page) != 0
    }

    ghost predicate Mapped(s0: Snap, lo: nat, hi: nat)
      reads this, ram
    {
      Valid() && MappedSince(s0, ram.Now(), Root(), lo, hi) && NoNewEmpty(s0, ram.Now())
    }

    ghost predicate Cleared(s0: Snap, lo: nat, hi: nat)
      reads this, ram
    {
      Valid() && ClearedSince(s0, ram.Now(), Root(), lo, hi)
    }

    method MapPage(page: nat) returns (ok: bool)
      requires Valid() && page < LOW_PAGES
      modifies ram`mem, ram`used, ram`tags
      ensures if ok then Mapped(old(ram.Now()), page, page + 1) else ram.Exhausted()
    {
      var phys;
      var addr := page * 4096;
      ghost var s0, root := ram.Now(), Root();
      assert addr / 4096 == page && Governed(ram.tags, root, page);
      ok, phys := ram.Increase(pid, addr);
      if !ok { return; }
      PageIsMapped(s0, ram.Now(), root, page, phys);
    }

    method UnmapPage(page: nat)
      requires Valid() && page < LOW_PAGES
      modifies ram`mem, ram`tags
      ensures Cleared(old(ram.Now()), page, page + 1)
    {
      assert Governed(ram.tags, Root(), page);
      ram.Decrease(pid, page * 4096);
      GovernedStays(old(ram.Now()), ram.Now(), Root(), page, page + 1);
    }

    /** Map one more page at either end of the range. */
    method MapNext(page: nat, ghost s0: Snap, ghost lo: nat, ghost hi: nat) returns (ok: bool)
      requires Mapped(s0, lo, hi) && lo <= hi <= LOW_PAGES && page < LOW_PAGES && (page == hi || page + 1 == lo)
      modifies ram`mem, ram`used, ram`tags
      ensures !ok ==> ram.Exhausted()
      ensures ok ==> Mapped(s0, if page == hi then lo else page, if page == hi then page + 1 else hi)
    {
      ok := MapPage(page);
      if ok {
        MappedNext(s0, old(ram.Now()), ram.Now(), Root(), lo, hi, page);
        NoNewEmptyChains(s0, old(ram.Now()), ram.Now());
      }
    }

    /** Unmap one more page at either end of the range. */
    method UnmapNext(page: nat, ghost s0: Snap, ghost lo: nat, ghost hi: nat)
      requires Cleared(s0, lo, hi) && lo <= hi <= LOW_PAGES && page < LOW_PAGES && (page == hi || page + 1 == lo)
      modifies ram`mem, ram`tags
      ensures Cleared(s0, if page == hi then lo else page, if page == hi then page + 1 else hi)
    {
      UnmapPage(page);
      ClearedNext(s0, old(ram.Now()), ram.Now(), Root(), lo, hi, page);
    }

    method MapRange(lo: nat, hi: nat) returns (ok: bool)
      requires Valid() && lo <= hi <= LOW_PAGES
      modifies ram`mem, ram`used, ram`tags
      ensures if ok then Mapped(old(ram.Now()), lo, hi) else ram.Exhausted()
    {
      for i := lo to hi
        invariant Mapped(old(ram.Now()), lo, i)
      {
        ok := MapNext(i, old(ram.Now()), lo, i);
        if !ok { return; }
      }
      return true;
    }

    // ----- The heap -----

    /** Between the heap start and `limit`, the mapped pages are those below the heap end. */
    ghost predicate HeapExact(limit: nat)
      requires pid in ram.cr3
      reads this, ram
    {
      && DivCeil(heapStart, 4096) <= DivCeil(heapEnd, 4096) <= limit <= LOW_PAGES
      && ExactRun(ram.mem, Root(), DivCeil(heapStart, 4096), DivCeil(heapEnd, 4096), limit)
    }

    /** `sys_brk`: maps up to a higher end and unmaps down to a lower one, wherever they are below HM. */
    method SysBrk(newEnd: nat) returns (ok: bool, result: nat)
      requires Valid() && DivCeil(newEnd, 4096) <= LOW_PAGES && DivCeil(heapEnd, 4096) <= LOW_PAGES
      modifies this`heapEnd, ram`mem, ram`used, ram`tags
      ensures !ok ==> ram.Exhausted()
      ensures ok ==> Valid() && result == newEnd == heapEnd
      ensures ok ==> var was, now := DivCeil(old(heapEnd), 4096), DivCeil(newEnd, 4096);
                     if was <= now then Mapped(old(ram.Now()), was, now) else Cleared(old(ram.Now()), now, was)
    {
      var was, now := DivCeil(heapEnd, 4096), DivCeil(newEnd, 4096);
      var grows := newEnd > heapEnd;
      heapEnd := newEnd;
      if grows {
        ok := MapRange(was, now);
        if !ok { return false, 0; }
      } else {
        var i := was;
        while i > now
          invariant now <= i <= was && heapEnd == newEnd
          invariant Cleared(old(ram.Now()), i, was)
        {
          UnmapNext(i - 1, old(ram.Now()), i, was);
          i := i - 1;
        }
      }
      return true, newEnd;
    }

    /** A call at or above the heap start, with nothing else mapped up to `limit`, leaves exactly the heap mapped. */
    method BrkStep(newEnd: nat, ghost limit: nat) returns (ok: bool)
      requires Valid() && HeapExact(limit) && heapStart <= newEnd && DivCeil(newEnd, 4096) <= limit
      modifies this`heapEnd, ram`mem, ram`used, ram`tags
      ensures !ok ==> ram.Exhausted()
      ensures ok ==> Valid() && heapEnd == newEnd && HeapExact(limit)
      ensures ok ==> var was, now := DivCeil(old(heapEnd), 4096), DivCeil(newEnd, 4096);
                     if was <= now then Mapped(old(ram.Now()), was, now) else Cleared(old(ram.Now()), now, was)
    {
      ghost var was, now := DivCeil(heapEnd, 4096), DivCeil(newEnd, 4096);
      var result;
      ok, result := SysBrk(newEnd);
      if ok {
        if was <= now {
          ExactAfterMap(old(ram.Now()), ram.Now(), Root(), DivCeil(heapStart, 4096), was, now, limit);
        } else {
          ExactAfterClear(old(ram.Now()), ram.Now(), Root(), DivCeil(heapStart, 4096), was, now, limit);
        }
      }
    }

    /** Any sequence of calls at or above the heap start leaves exactly the heap mapped. */
    method BrkRun(ends: seq<nat>, ghost limit: nat) returns (ok: bool)
      requires Valid() && HeapExact(limit)
      requires forall i | 0 <= i < |ends| :: heapStart <= ends[i] && DivCeil(ends[i], 4096) <= limit
      modifies this`heapEnd, ram`mem, ram`used, ram`tags
      ensures !ok ==> ram.Exhausted()
      ensures ok ==> Valid() && HeapExact(limit) && heapEnd == if ends == [] then old(heapEnd) else ends[|ends| - 1]
      ensures ok ==> SameOutside(old(ram.Now()), ram.Now(), Root(), DivCeil(heapStart, 4096), limit)
    {
      for i := 0 to |ends|
        invariant Valid() && HeapExact(limit) && heapEnd == if i == 0 then old(heapEnd) else ends[i - 1]
        invariant SameOutside(old(ram.Now()), ram.Now(), Root(), DivCeil(heapStart, 4096), limit)
      {
        ghost var s1, was, now := ram.Now(), DivCeil(heapEnd, 4096), DivCeil(ends[i], 4096);
        assert heapStart <= ends[i] && DivCeil(heapStart, 4096) <= now;
        ok := BrkStep(ends[i], limit);
        if !ok { return; }
        SameOutsideComposes(old(ram.Now()), s1, ram.Now(), Root(), DivCeil(heapStart, 4096), limit,
                            if was <= now then was else now, if was <= now then now else was,
                            DivCeil(heapStart, 4096), limit);
      }
      return true;
    }

    // ----- Anonymous mappings -----

    method RegionIsFree(start: nat, count: nat) returns (free: bool)
      requires pid in ram.cr3
      ensures free <==> FreeRun(ram.mem, Root(), start, count)
    {
      for j := 0 to count
        invariant RangeClear(ram.mem, Root(), start, start + j)
      {
        var paged := ram.IsPaged(pid, (start + j) * 4096);
        if paged {
          assert Translate(ram.mem, Root(), start + j) != 0;
          return false;
        }
      }
      return true;
    }

    /** `find_free_virtual_region`. */
    method FindFreeRegion(length: nat) returns (addr: nat)
      requires pid in ram.cr3
      ensures addr != 0 ==> addr % 4096 == 0 && LowestFreeRun(ram.mem, Root(), addr / 4096, DivCeil(length, 4096))
      ensures addr == 0 ==> forall i | 1 <= i < LOW_PAGES - 1 :: !FreeRun(ram.mem, Root(), i, DivCeil(length, 4096))
    {
      var count := DivCeil(length, 4096);
      for i := 1 to LOW_PAGES - 1
        invariant forall k | 1 <= k < i :: !FreeRun(ram.mem, Root(), k, count)
      {
        var free := RegionIsFree(i, count);
        if free {
          return i * 4096;
        }
      }
      return 0;
    }

    /** A private anonymous `mmap` of pages below HM; `at` is the address the kernel settles on. */
    method SysMmap(hint: nat, length: nat) returns (ok: bool, result: int, ghost at: nat)
      requires Valid() && FitsBelow(ram.mem, Root(), hint, DivCeil(length, 4096))
      modifies ram`mem, ram`used, ram`tags
      ensures !ok ==> ram.Exhausted()
      ensures Chosen(old(ram.mem), Root(), hint, DivCeil(length, 4096), at)
      ensures ok ==> if old(Paged(at / 4096)) then result == -22 && ram.Now() == old(ram.Now())
                     else result == at && Mapped(old(ram.Now()), at / 4096, at / 4096 + DivCeil(length, 4096))
    {
      var addr := hint;
      if addr == 0 {
        addr := FindFreeRegion(length);
      }
      at := addr;
      var count := DivCeil(length, 4096);
      assert Chosen(ram.mem, Root(), hint, count, at);
      var paged := ram.IsPaged(pid, addr);
      if paged {
        return true, -EINVAL, at;
      }
      ok := MapRange(addr / 4096, addr / 4096 + count);
      return ok, addr, at;
    }

    method SysMunmap(addr: nat, length: nat) returns (result: int)
      requires Valid() && addr / 4096 + DivCeil(length, 4096) <= LOW_PAGES
      modifies ram`mem, ram`tags
      ensures result == 0 && Cleared(old(ram.Now()), addr / 4096, addr / 4096 + DivCeil(length, 4096))
    {
      var count := DivCeil(length, 4096);
      for i := 0 to count
        invariant Cleared(old(ram.Now()), addr / 4096, addr / 4096 + i)
      {
        UnmapNext(addr / 4096 + i, old(ram.Now()), addr / 4096, addr / 4096 + i);
      }
      return 0;
    }

    /** Unmapping what an `mmap` at 0 returned restores every translation of every process. */
    method MmapThenMunmap(length: nat, ghost room: nat) returns (ok: bool)
      requires Valid() && length > 0 && Room(ram.mem, Root(), room, DivCeil(length, 4096))
      modifies ram`mem, ram`used, ram`tags
      ensures if ok then Valid() && SameTranslations(old(ram.Now()), ram.Now()) else ram.Exhausted()
    {
      var addr;
      ghost var at;
      ok, addr, at := SysMmap(0, length);
      assert FreeRun(old(ram.mem), Root(), room, DivCeil(length, 4096));
      assert at != 0 && Translate(old(ram.mem), Root(), at / 4096) == 0;
      if ok {
        ghost var s1 := ram.Now();
        var _ := SysMunmap(addr, length);
        MapThenClear(old(ram.Now()), s1, ram.Now(), Root(), addr / 4096, addr / 4096 + DivCeil(length, 4096));
      }
    }

    // ----- Thread stacks -----

    /** The downward search of `register_a_thread`; it ends because some slot is vacant. */
    method FindStackSlot(ghost live: set<nat>, ghost slots: nat, ghost vacant: nat) returns (top: nat, ghost s: nat)
      requires pid in ram.cr3 && StacksExact(ram.mem, Root(), live, slots) && vacant < slots && vacant !in live
      ensures s < slots && LowestVacant(live, s) && top == SlotPage(s, 0) * 4096
      ensures top == 0x4000_0000_0000 - 4096 - 5 * 4096 * s
    {
      top, s := (LOW_PAGES - 1) * 4096, 0;
      while true
        invariant s <= vacant && (forall t: nat | t < s :: t in live) && top == SlotPage(s, 0) * 4096
        decreases vacant - s
      {
        var paged := ram.IsPaged(pid, top - 4096);
        assert (top - 4096) / 4096 == SlotPage(s, 1) && SlotPageOk(ram.mem, Root(), live, s, 1);
        if !paged {
          return;
        }
        top, s := top - 5 * 4096, s + 1;
      }
    }

    /** The stack placement of `register_a_thread`: the highest slot without a stack. */
    method RegisterStack(ghost live: set<nat>, ghost slots: nat, ghost vacant: nat)
      returns (ok: bool, top: nat, ghost s: nat)
      requires Valid() && StacksExact(ram.mem, Root(), live, slots) && vacant < slots && vacant !in live
      modifies ram`mem, ram`used, ram`tags
      ensures s < slots && LowestVacant(live, s) && top == SlotPage(s, 0) * 4096
      ensures if ok then StacksExact(ram.mem, Root(), live + {s}, slots)
              && Mapped(old(ram.Now()), SlotPage(s, 4), SlotPage(s, 0))
              else ram.Exhausted()
      ensures top == 0x4000_0000_0000 - 4096 - 5 * 4096 * s && top >= 4 * 4096
      ensures ok ==> Mapped(old(ram.Now()), top / 4096 - 4, top / 4096)
    {
      top, s := FindStackSlot(live, slots, vacant);
      for i := 0 to 4
        invariant Mapped(old(ram.Now()), SlotPage(s, i), SlotPage(s, 0))
      {
        ok := MapNext(top / 4096 - 1 - i, old(ram.Now()), SlotPage(s, i), SlotPage(s, 0));
        if !ok { return; }
      }
      StackAdded(old(ram.Now()), ram.Now(), Root(), live, slots, s);
      ok := true;
    }

    /** The stack release of `mark_current_thread_as_ended`. */
    method EndStack(top: nat, ghost live: set<nat>, ghost slots: nat, ghost s: nat)
      requires Valid() && StacksExact(ram.mem, Root(), live, slots) && s in live && s < slots
      requires top == SlotPage(s, 0) * 4096
      modifies ram`mem, ram`tags
      ensures StacksExact(ram.mem, Root(), live - {s}, slots) && Cleared(old(ram.Now()), SlotPage(s, 4), SlotPage(s, 0))
      ensures top >= 4 * 4096 && Cleared(old(ram.Now()), top / 4096 - 4, top / 4096)
    {
      for i := 1 to 5
        invariant Cleared(old(ram.Now()), SlotPage(s, i - 1), SlotPage(s, 0))
      {
        UnmapNext(top / 4096 - i, old(ram.Now()), SlotPage(s, i - 1), SlotPage(s, 0));
      }
      StackRemoved(old(ram.Now()), ram.Now(), Root(), live, slots, s);
    }

    /** The live threads' stacks, and no other, are mapped among the slots. */
    ghost predicate StacksAre(tops: seq<nat>, slot: seq<nat>, slots: nat)
      requires pid in ram.cr3
      reads this, ram
    {
      StackTable(tops, slot, slots) && StacksExact(ram.mem, Root(), Live(slot), slots)
    }

    method StartStack(tops: seq<nat>, ghost slot: seq<nat>, ghost slots: nat)
      returns (ok: bool, now: seq<nat>, ghost nowSlot: seq<nat>)
      requires Valid() && StacksAre(tops, slot, slots) && |tops| < slots
      modifies ram`mem, ram`used, ram`tags
      ensures !ok ==> ram.Exhausted()
      ensures ok ==> Valid() && StacksAre(now, nowSlot, slots)
      ensures |now| == |tops| + 1 && now[..|tops|] == tops && |nowSlot| == |slot| + 1 && nowSlot[..|slot|] == slot
      ensures LowestVacant(Live(slot), nowSlot[|slot|]) && nowSlot[|slot|] < slots
      ensures ok ==> Mapped(old(ram.Now()), SlotPage(nowSlot[|slot|], 4), SlotPage(nowSlot[|slot|], 0))
    {
      ghost var vacant := Vacancy(slot, slots);
      var top;
      ghost var s;
      ok, top, s := RegisterStack(Live(slot), slots, vacant);
      now, nowSlot := tops + [top], slot + [s];
      assert Live(nowSlot) == Live(slot) + {s};
    }

    method StopStack(k: nat, tops: seq<nat>, ghost slot: seq<nat>, ghost slots: nat)
      returns (now: seq<nat>, ghost nowSlot: seq<nat>)
      requires Valid() && StacksAre(tops, slot, slots) && k < |tops|
      modifies ram`mem, ram`tags
      ensures Valid() && StacksAre(now, nowSlot, slots) && now == tops[..k] + tops[k + 1..]
      ensures Cleared(old(ram.Now()), SlotPage(slot[k], 4), SlotPage(slot[k], 0))
    {
      EndStack(tops[k], Live(slot), slots, slot[k]);
      now, nowSlot := tops[..k] + tops[k + 1..], slot[..k] + slot[k + 1..];
      LiveWithout(slot, k, nowSlot);
    }

    /** One thread start or end; `slot` lists the slots of the live stacks in `tops`. */
    method StackStep(op: StackOp, tops: seq<nat>, ghost slot: seq<nat>, ghost slots: nat)
      returns (ok: bool, now: seq<nat>, ghost nowSlot: seq<nat>)
      requires Valid() && StacksAre(tops, slot, slots) && (op.Start? ==> |tops| < slots)
      modifies ram`mem, ram`used, ram`tags
      ensures !ok ==> ram.Exhausted()
      ensures ok ==> Valid() && StacksAre(now, nowSlot, slots) && |now| == CountStep(|tops|, op)
      ensures ok && op.Start? ==> now[..|tops|] == tops && nowSlot[..|slot|] == slot
      ensures ok && op.Start? ==> LowestVacant(Live(slot), nowSlot[|slot|])
      ensures ok && op.Start? ==> Mapped(old(ram.Now()), SlotPage(nowSlot[|slot|], 4), SlotPage(nowSlot[|slot|], 0))
      ensures ok && op.Stop? && op.which < |tops| ==> now == tops[..op.which] + tops[op.which + 1..]
      ensures ok && op.Stop? && op.which < |tops| ==>
                Cleared(old(ram.Now()), SlotPage(slot[op.which], 4), SlotPage(slot[op.which], 0))
      ensures ok && op.Stop? && op.which >= |tops| ==> now == tops && ram.Now() == old(ram.Now())
      ensures ok ==> OnlyStacksMoved(old(ram.Now()), ram.Now(), Root(), slots)
    {
      ok, now, nowSlot := true, tops, slot;
      match op
      case Start =>
        ok, now, nowSlot := StartStack(tops, slot, slots);
        if ok { StackMoves(old(ram.Now()), ram.Now(), Root(), slots, nowSlot[|slot|]); }
      case Stop(k) =>
        if k < |tops| {
          now, nowSlot := StopStack(k, tops, slot, slots);
          StackMoves(old(ram.Now()), ram.Now(), Root(), slots, slot[k]);
        }
    }

    /** Any sequence of thread starts and ends in which every start finds a slot: each slot has all four pages of its
        stack or none, live threads have different slots, there are as many as were started and not ended, and nothing
        else moved. */
    method StackRun(ops: seq<StackOp>, ghost slots: nat) returns (ok: bool, tops: seq<nat>, ghost slot: seq<nat>)
      requires Valid() && StacksExact(ram.mem, Root(), {}, slots) && Roomy(0, ops, slots)
      modifies ram`mem, ram`used, ram`tags
      ensures !ok ==> ram.Exhausted()
      ensures ok ==> Valid() && StacksAre(tops, slot, slots) && |tops| == Count(0, ops)
      ensures ok ==> OnlyStacksMoved(old(ram.Now()), ram.Now(), Root(), slots)
    {
      ok, tops, slot := true, [], [];
      assert Live([]) == {};
      for i := 0 to |ops|
        invariant ok && Valid() && StacksAre(tops, slot, slots) && |tops| == Count(0, ops[..i])
        invariant OnlyStacksMoved(old(ram.Now()), ram.Now(), Root(), slots)
      {
        RoomyPrefix(0, ops, slots, i + 1);
        assert ops[..i + 1][..i] == ops[..i];
        ghost var s1 := ram.Now();
        ok, tops, slot := StackStep(ops[i], tops, slot, slots);
        if !ok {
          return;
        }
        StacksMoveAgain(old(ram.Now()), s1, ram.Now(), Root(), slots);
      }
      assert ops[..|ops|] == ops;
    }
  }
}
