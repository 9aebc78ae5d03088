/** A parent that `fork` accepts and whose child gets a page the parent has not: the frames `clone_cr3` takes for the
    child's tables are not erased (core/syscall/syscall2.h), and here they still hold a word of an earlier table. */
module StaleFork {

  import opened PageTables
  import opened Fork

  function Entry(f: nat): (word: nat)
    ensures word != 0 && FlagsOf(word) == FLAGS && (f < 16 ==> FrameOf(word) == f)
  {
    f * 4096 + FLAGS
  }

  /** Word `j` of frame `f`. Frames 1 to 4 are the parent's tables and 5 to 8 its stack, pages 0 to 3. Frames 9 to 11
      belong to others: a walk that enters them by their first words ends at a leaf. Frames 12 to 15 are the child's
      tables once they are `taken`; the second word of each leads to frame 9 unless the copy overwrites it. */
  function WordOf(f: nat, j: nat, taken: bool): nat {
    if f == 4 || (f == 15 && taken) then (if j < 4 then Entry(5 + j) else 0)
    else if j == 0 then
      if 1 <= f < 4 || 9 <= f < 11 || (12 <= f < 15 && taken) then Entry(f + 1) else if f == 11 then FLAGS else 0
    else if j == 1 && f >= 12 then Entry(9) else 0
  }

  /** The path of the table `n` levels down on the way to page 0. */
  function Down(n: nat): (path: seq<nat>)
    requires n <= 4
    ensures |path| == n && forall i | 0 <= i < n :: path[i] == 0
  {
    [0, 0, 0, 0][..n]
  }

  /** The four tables of each process lie in a row, and every walk goes through their first words. */
  ghost function TableOf(f: nat): Node
    requires 1 <= f < 5 || 12 <= f < 16
  {
    var root := if f < 5 then 1 else 12;
    Node(root, Down(f - root), if f == root then f else f - 1,
         if 12 <= f < 15 then {0} else AllSlots(Down(f - root)))
  }

  ghost function State(taken: bool): Snap {
    Snap(seq(16, f requires 0 <= f < 16 => seq(ENTRIES, j requires 0 <= j < ENTRIES => WordOf(f, j, taken))),
         seq(16, f => f < 12 || taken),
         map f: nat | f < 16 && (1 <= f < 5 || (12 <= f && taken)) :: TableOf(f))
  }

  ghost function Originals(): Origin {
    map[12 := 1, 13 := 2, 14 := 3, 15 := 4]
  }

  lemma OneDown(n: nat)
    requires n < 4
    ensures Down(n) + [0] == Down(n + 1) && Down(n + 1)[..n] == Down(n)
  {}

  lemma TableLeads(taken: bool, f: nat, j: nat)
    requires var s := State(taken); f in s.tags && j in s.tags[f].slots
    ensures var s := State(taken); Leads(s.mem, s.used, s.tags, f, j)
  {
    OneDown(|TableOf(f).path|);
  }

  lemma TableReferred(taken: bool, f: nat)
    requires f in State(taken).tags
    ensures var s := State(taken); TagOk(s.used, s.tags, f) && Referred(s.mem, s.tags, f)
  {
    if TableOf(f).path != [] { OneDown(|TableOf(f).path| - 1); }
  }

  lemma TablesSeparate(taken: bool, f: nat, g: nat)
    requires f in State(taken).tags && g in State(taken).tags
    ensures Separate(State(taken).tags, f, g)
  {
    assert |TableOf(f).path| == f - TableOf(f).root && |TableOf(g).path| == g - TableOf(g).root;
  }

  lemma StateIsSound(taken: bool)
    ensures var s := State(taken); Sound(s.mem, s.used, s.tags) && Whole(s.tags, 1)
  {
    var s := State(taken);
    forall f | f in s.tags ensures TagOk(s.used, s.tags, f) && Referred(s.mem, s.tags, f) {
      TableReferred(taken, f);
    }
    forall f, j | f in s.tags && j in s.tags[f].slots ensures Leads(s.mem, s.used, s.tags, f, j) {
      TableLeads(taken, f, j);
    }
    forall f, g | f in s.tags && g in s.tags ensures Separate(s.tags, f, g) {
      TablesSeparate(taken, f, g);
    }
  }

  lemma TableRepeats(s: Snap, o: Origin, h: nat)
    requires s == State(true) && o == Originals() && h in o
    ensures Repeats(s.mem, s.tags, o, 1, h)
  {}

  lemma TableComplete(s: Snap, o: Origin, h: nat)
    requires s == State(true) && o == Originals() && h in o
    ensures Complete(s.mem, s.tags, o, h)
  {
    if h < 15 {
      var path := Down(h - 12);
      assert 0 in AllSlots(path) && Load(s.mem, h - 11, 0) != 0;
      assert Present(s.mem, h - 11, path, ENTRIES) == {0};
    }
  }

  lemma SameRow(s0: Snap, s: Snap, f: nat)
    requires s0 == State(false) && s == State(true) && f < 12
    ensures s.mem[f] == s0.mem[f]
  {
    forall j | 0 <= j < ENTRIES ensures s.mem[f][j] == s0.mem[f][j] {}
  }

  lemma OnlyTaken(s0: Snap, s: Snap)
    requires s0 == State(false) && s == State(true)
    ensures OnlyChildAdded(s0, s, 12)
  {
    forall f: nat | f < 12 ensures s.mem[f] == s0.mem[f] {
      SameRow(s0, s, f);
    }
    forall r | Whole(s0.tags, r) ensures Whole(s.tags, r) {}
    forall f | f in s0.tags ensures SameTable(s0, s, f) {}
    forall f | f in s.tags && f !in s0.tags ensures StaleIn(s0, s, f) {}
  }

  lemma OriginalsAreTables(s: Snap, o: Origin, h: nat)
    requires s == State(true) && o == Originals()
    ensures h in o <==> h in s.tags && s.tags[h].root == 12
  {}

  lemma TablesMakeClone(s: Snap, o: Origin)
    requires Sound(s.mem, s.used, s.tags) && Whole(s.tags, 1) && IsRoot(s.tags, 12) && 12 in o && o[12] == 1
    requires forall h {:trigger h in o} :: h in o <==> h in s.tags && s.tags[h].root == 12
    requires forall h | h in o :: Repeats(s.mem, s.tags, o, 1, h)
    requires forall h | h in o :: Complete(s.mem, s.tags, o, h)
    ensures Cloned(s, o, 1, 12)
  {}

  /** `s` is what `clone_cr3` makes of the parent in `s0` when it takes the free frames in order. */
  lemma StateIsClone(s0: Snap, s: Snap, o: Origin)
    requires s0 == State(false) && s == State(true) && o == Originals()
    ensures Cloned(s, o, 1, 12) && OnlyChildAdded(s0, s, 12)
  {
    OnlyTaken(s0, s);
    StateIsCloned(s, o);
  }

  lemma StateIsCloned(s: Snap, o: Origin)
    requires s == State(true) && o == Originals()
    ensures Cloned(s, o, 1, 12)
  {
    StateIsSound(true);
    forall h: nat ensures h in o <==> h in s.tags && s.tags[h].root == 12 {
      OriginalsAreTables(s, o, h);
    }
    forall h | h in o ensures Repeats(s.mem, s.tags, o, 1, h) && Complete(s.mem, s.tags, o, h) {
      TableRepeats(s, o, h);
      TableComplete(s, o, h);
    }
    TablesMakeClone(s, o);
  }

  const PAGE := 134217728    // the first page under the second L4 word

  lemma {:induction false} TablesWalk(mem: Memory, f: nat, path: seq<nat>, k: nat)
    requires mem == State(false).mem && k < 4 && f == k + 1 && |path| == 4 - k && path[3 - k] < 4
    requires forall i | 0 <= i < 3 - k :: path[i] == 0
    ensures Walk(mem, f, path) == Entry(5 + path[3 - k])
    decreases 4 - k
  {
    if k < 3 { TablesWalk(mem, f + 1, path[1..], k + 1); }
  }

  /** The parent is one `fork` accepts: its tables are whole and its stack, pages 0 to 3, is mapped. */
  lemma StackIsMapped(p: nat)
    requires p < 4
    ensures Whole(State(false).tags, 1) && Translate(State(false).mem, 1, p) == Entry(5 + p)
  {
    StateIsSound(false);
    TablesWalk(State(false).mem, 1, PathOf(p), 0);
  }

  lemma OthersLead(s0: Snap, s: Snap, child: nat)
    requires s0 == State(false) && OnlyChildAdded(s0, s, child)
    ensures 12 <= child < 16 && Load(s0.mem, child, 1) == Entry(9) && Load(s.mem, 1, 1) == 0
    ensures Load(s.mem, 9, 0) == Entry(10) && Load(s.mem, 10, 0) == Entry(11) && Load(s.mem, 11, 0) == FLAGS
  {
    assert SameTable(s0, s, 1) && StaleIn(s0, s, child);
    assert s0.used[9] && s0.used[10] && s0.used[11];
    assert s.mem[9] == s0.mem[9] && s.mem[10] == s0.mem[10] && s.mem[11] == s0.mem[11];
  }

  lemma StaleWalk(mem: Memory)
    requires Load(mem, 9, 0) == Entry(10) && Load(mem, 10, 0) == Entry(11) && Load(mem, 11, 0) == FLAGS
    ensures Walk(mem, 9, [0, 0, 0]) == FLAGS
  {
    assert [0, 0, 0][1..] == [0, 0] && [0, 0][1..] == [0];
  }

  lemma StaleHarms(s0: Snap, s: Snap, child: nat, path: seq<nat>)
    requires path == [1, 0, 0, 0] && Load(s0.mem, child, 1) == Entry(9) && Load(s.mem, 1, 1) == 0
    requires Load(s.mem, 9, 0) == Entry(10) && Load(s.mem, 10, 0) == Entry(11) && Load(s.mem, 11, 0) == FLAGS
    ensures !Harmless(s0, s, child, 1, path) && Walk(s.mem, 1, path) == 0
  {
    StaleWalk(s.mem);
    assert path[1..] == [0, 0, 0];
  }

  lemma HarmShows(s0: Snap, s: Snap, o: Origin, child: nat)
    requires Sound(s0.mem, s0.used, s0.tags) && Cloned(s, o, 1, child) && OnlyChildAdded(s0, s, child)
    requires !Harmless(s0, s, child, 1, PathOf(PAGE)) && Walk(s.mem, 1, PathOf(PAGE)) == 0
    ensures Translate(s.mem, 1, PAGE) == 0 && Translate(s.mem, child, PAGE) != 0
  {
    CloneAgreesExactly(s0, s, o, 1, child, PAGE);
  }

  /** Whatever `clone_cr3` makes of that parent, whichever frames it takes, has a page the parent has not. */
  lemma StaleWordShows(s0: Snap, s: Snap, o: Origin, child: nat)
    requires s0 == State(false) && Cloned(s, o, 1, child) && OnlyChildAdded(s0, s, child)
    ensures Translate(s.mem, 1, PAGE) == 0 && Translate(s.mem, child, PAGE) != 0
  {
    OthersLead(s0, s, child);
    assert PathOf(PAGE) == [1, 0, 0, 0];
    StaleHarms(s0, s, child, PathOf(PAGE));
    StateIsSound(false);
    HarmShows(s0, s, o, child);
  }
}
