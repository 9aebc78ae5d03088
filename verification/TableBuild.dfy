/** `create_page_table_for_process` (core/scheduler.h): a whole address space built in one go. */
module TableBuild {
  import opened Arithmetic
  import opened PageTables
  import opened AddressSpaces
  import opened ProcessMemory

  /** Pages below one word of a table at the given level. */
  function Span(level: nat): (n: nat)
    requires 1 <= level <= 4
    ensures n > 0
  {
    match level case 1 => 1 case 2 => 512 case 3 => 262144 case _ => 134217728
  }

  function Width(level: nat): nat {
    if level == 4 then LOW_L4 else ENTRIES
  }

  /** Pages below a whole table. */
  function Extent(level: nat): (n: nat)
    requires 1 <= level <= 4
  {
    match level case 1 => 512 case 2 => 262144 case 3 => 134217728 case _ => LOW_PAGES
  }

  /** The first page below word `i` of the table whose pages begin at `base`. */
  function PageAt(level: nat, base: nat, i: nat): nat {
    match level case 1 => base + i case 2 => base + i * 512 case 3 => base + i * 262144 case _ => base + i * 134217728
  }

  /** `base` is where a table of that level begins. */
  predicate Aligned(level: nat, base: nat) {
    match level
    case 1 => base % 512 == 0
    case 2 => base % 262144 == 0
    case 3 => base % 134217728 == 0
    case _ => base == 0
  }

  /** Nine bits more. */
  lemma NineBits(k: nat, i: nat)
    requires i < 512
    ensures (512 * k + i) / 512 == k && (512 * k + i) % 512 == i && 512 * k / 512 == k && 512 * k % 512 == 0
  {
    Quotient(512 * k + i, 512, k, i);
    Quotient(512 * k, 512, k, 0);
  }

  lemma Shift(x: nat, n: nat)
    requires x == 512 * n
    ensures x / 512 == n && x % 512 == 0
  {}

  lemma PathStep1(base: nat, i: nat)
    requires base % 512 == 0 && i < 512
    ensures PathOf(base + i) == PathOf(base)[..3] + [i]
  {
    NineBits(base / 512, i);
    assert base == 512 * (base / 512);
  }

  lemma PathStep2(base: nat, i: nat, b: nat, k: nat)
    requires base == 262144 * k && i < 512 && b == base + i * 512
    ensures PathOf(b)[..3] == PathOf(base)[..2] + [i] && b % 512 == 0
  {
    Shift(base, 512 * k);
    Shift(b, 512 * k + i);
    NineBits(k, i);
  }

  lemma ShiftTwice(x: nat, n: nat)
    requires x == 262144 * n
    ensures x / 512 / 512 == n
  {
    Shift(x, 512 * n);
    Shift(512 * n, n);
  }

  lemma Multiple(x: nat, n: nat)
    requires x == 262144 * n
    ensures x % 262144 == 0
  {}

  lemma PathStep3(base: nat, i: nat, b: nat, k: nat)
    requires base == 134217728 * k && i < 512 && b == base + i * 262144
    ensures PathOf(b)[..2] == PathOf(base)[..1] + [i] && b % 262144 == 0
  {
    ShiftTwice(base, 512 * k);
    ShiftTwice(b, 512 * k + i);
    NineBits(k, i);
    Multiple(b, 512 * k + i);
  }

  lemma PathStep4(i: nat, b: nat)
    requires i < LOW_L4 && b == i * 134217728
    ensures PathOf(b)[..1] == [i] && b % 134217728 == 0
  {
    Shift(b, i * 262144);
    Shift(i * 262144, i * 512);
    Shift(i * 512, i);
  }

  lemma LevelTwo(base: nat, i: nat, b: nat)
    requires base % 262144 == 0 && i < 512 && b == base + i * 512
    ensures PathOf(b)[..3] == PathOf(base)[..2] + [i] && b % 512 == 0
  {
    PathStep2(base, i, b, base / 262144);
  }

  lemma LevelThree(base: nat, i: nat, b: nat)
    requires base % 134217728 == 0 && i < 512 && b == base + i * 262144
    ensures PathOf(b)[..2] == PathOf(base)[..1] + [i] && b % 262144 == 0
  {
    PathStep3(base, i, b, base / 134217728);
  }

  /** A page's path begins with the path of the table it lies below. */
  lemma PathStep(level: nat, base: nat, i: nat, b: nat)
    requires 1 <= level <= 4 && i < Width(level) && Aligned(level, base) && base < LOW_PAGES
    requires b == PageAt(level, base, i)
    ensures PathOf(b)[..5 - level] == PathOf(base)[..4 - level] + [i]
    ensures level > 1 ==> Aligned(level - 1, b)
  {
    if level == 1 {
      PathStep1(base, i);
      assert PathOf(b)[..4] == PathOf(b);
    } else if level == 2 {
      LevelTwo(base, i, b);
    } else if level == 3 {
      LevelThree(base, i, b);
    } else {
      PathStep4(i, b);
    }
  }

  lemma Fits(level: nat, base: nat)
    requires 1 <= level <= 4 && Aligned(level, base) && base < LOW_PAGES
    ensures base + Extent(level) <= LOW_PAGES
  {
  }

  // ----- A new, erased L4 table -----

  ghost function WithBlankRoot(s: Snap, c: nat): Snap
    requires c < |s.used| && c < |s.mem|
  {
    Snap(s.mem[c := Blank()], s.used[c := true], s.tags[c := Node(c, [], c, AllSlots([]))])
  }

  lemma BlankRootIsSound(s: Snap, c: nat)
    requires Sound(s.mem, s.used, s.tags) && c < |s.used| && !s.used[c]
    ensures var s' := WithBlankRoot(s, c); Sound(s'.mem, s'.used, s'.tags)
  {
    var s' := WithBlankRoot(s, c);
    FreeIsNoTable(s.mem, s.used, s.tags, c);
    forall f | f in s'.tags ensures TagOk(s'.used, s'.tags, f) && Referred(s'.mem, s'.tags, f) {
      if f != c { assert TagOk(s.used, s.tags, f) && Referred(s.mem, s.tags, f); }
    }
    forall f, g | f in s'.tags && g in s'.tags ensures Separate(s'.tags, f, g) {
      if f != c { assert TagOk(s.used, s.tags, f); }
      if g != c { assert TagOk(s.used, s.tags, g); }
      if f != c && g != c { assert Separate(s.tags, f, g); }
    }
    forall f, j | f in s'.tags && j in s'.tags[f].slots ensures Leads(s'.mem, s'.used, s'.tags, f, j) {
      if f != c { assert Leads(s.mem, s.used, s.tags, f, j); }
    }
  }

  lemma BlankRootKeeps(s: Snap, c: nat, r: nat, p: nat)
    requires Sound(s.mem, s.used, s.tags) && c < |s.used| && !s.used[c] && Governed(s.tags, r, p)
    ensures Governed(WithBlankRoot(s, c).tags, r, p)
    ensures Translate(WithBlankRoot(s, c).mem, r, p) == Translate(s.mem, r, p)
  {
    FreeIsNoTable(s.mem, s.used, s.tags, c);
    assert TagOk(s.used, s.tags, r);
    WriteElsewhere(s.mem, s.used, s.tags, WithBlankRoot(s, c).mem, r, PathOf(p)[0] + 1, r, p);
  }

  lemma BlankRootIsWhole(s: Snap, c: nat)
    requires Sound(s.mem, s.used, s.tags) && c < |s.used| && !s.used[c]
    ensures var s' := WithBlankRoot(s, c);
            Whole(s'.tags, c) && AllGoverned(s'.tags, c) && RangeClear(s'.mem, c, 0, LOW_PAGES) && Evolves(s, s')
  {
    var s' := WithBlankRoot(s, c);
    FreeIsNoTable(s.mem, s.used, s.tags, c);
    forall f | f in s.tags ensures s.tags[f].root != c { OwnerIsTable(s.mem, s.used, s.tags, f); }
    forall p: nat | p < LOW_PAGES ensures Governed(s'.tags, c, p) && Translate(s'.mem, c, p) == 0 {
      WholeIsGoverned(s'.tags, c, p);
    }
  }

  method NewRoot(ram: PhysicalMemory) returns (ok: bool, root: nat)
    requires ram.Valid()
    modifies ram`mem, ram`used, ram`tags
    ensures !ok ==> ram.Exhausted()
    ensures ok ==> ram.Valid() && root < |old(ram.used)| && !old(ram.used)[root]
    ensures ok ==> ram.Now() == WithBlankRoot(old(ram.Now()), root)
    ensures ok ==> Whole(ram.tags, root) && AllGoverned(ram.tags, root) && RangeClear(ram.mem, root, 0, LOW_PAGES)
    ensures ok ==> Evolves(old(ram.Now()), ram.Now()) && SameTranslations(old(ram.Now()), ram.Now())
  {
    ghost var s := ram.Now();
    ok, root := ram.GetFreeBlock();
    if !ok { return; }
    BlankRootIsSound(s, root);
    BlankRootIsWhole(s, root);
    ram.mem := ram.mem[root := Blank()];
    ram.tags := ram.tags[root := Node(root, [], root, AllSlots([]))];
    forall r: nat, p: nat | Governed(s.tags, r, p)
      ensures Governed(ram.tags, r, p) && Translate(ram.mem, r, p) == Translate(s.mem, r, p)
    {
      BlankRootKeeps(s, root, r, p);
    }
  }

  // ----- The nested loops -----

  /** How far the mapping from `start` has come when the block index is `b`. */
  function Reached(start: nat, b: nat): nat {
    if b < start then start else b
  }

  lemma LinkKeepsMapped(s0: Snap, s1: Snap, s2: Snap, root: nat, lo: nat, hi: nat)
    requires MappedSince(s0, s1, root, lo, hi) && Evolves(s1, s2) && SameTranslations(s1, s2) && hi <= LOW_PAGES
    ensures MappedSince(s0, s2, root, lo, hi)
  {
    EvolvesTransitively(s0, s1, s2);
    forall p: nat | p < LOW_PAGES
      ensures Governed(s2.tags, root, p) && Translate(s2.mem, root, p) == Translate(s1.mem, root, p)
    {
      assert Governed(s1.tags, root, p);
    }
    forall p | lo <= p < hi ensures PageMapped(s0, s2, root, p) {
      assert PageMapped(s0, s1, root, p);
    }
    forall p, q | lo <= p < q < hi ensures Apart(s0, s2, root, p, q) {
      assert Apart(s0, s1, root, p, q);
    }
  }

  // ----- Which tables the loops leave behind -----

  /** The first page below the L1 table at `path`. */
  ghost function Base(path: seq<nat>): nat
    requires |path| == 3
  {
    path[0] * 134217728 + path[1] * 262144 + path[2] * 512
  }

  lemma BaseOf(b: nat)
    requires b < LOW_PAGES && b % 512 == 0
    ensures Base(PathOf(b)[..3]) == b
  {
    Recompose(b);
  }

  /** A table the build made: an L1 table begins below page `e`; one above has a word, unless it is `but`. */
  ghost predicate Placed(s: Snap, root: nat, f: nat, e: nat, but: nat)
    requires f in s.tags
  {
    var path := s.tags[f].path;
    && s.tags[f].root == root && 1 <= |path| <= 3
    && if |path| == 3
       then Base(path) < e && Base(path) < LOW_PAGES && Base(path) % 512 == 0 && path == PathOf(Base(path))[..3]
       else f == but || HasWord(s.mem, f)
  }

  ghost predicate L1At(s: Snap, root: nat, m: nat, f: nat) {
    f in s.tags && s.tags[f].root == root && s.tags[f].path == PathOf(512 * m)[..3]
  }

  ghost predicate HasL1(s: Snap, root: nat, m: nat) {
    exists f: nat :: L1At(s, root, m, f)
  }

  /** The L1 tables made since `s0` are those that begin below page `e`. */
  ghost predicate Layout(s0: Snap, s: Snap, root: nat, e: nat, but: nat) {
    && s0.tags.Keys <= s.tags.Keys && root in s0.tags && e <= LOW_PAGES + 1
    && (forall f {:trigger Placed(s, root, f, e, but)} | f in s.tags && f !in s0.tags :: Placed(s, root, f, e, but))
    && (forall m: nat {:trigger HasL1(s, root, m)} | 512 * m < e && 512 * m < LOW_PAGES :: HasL1(s, root, m))
  }

  /** No table but `table` has changed. */
  ghost predicate KeepsOthers(s: Snap, s': Snap, table: nat) {
    && |s'.mem| == |s.mem|
    && forall f | f in s.tags ::
         f in s'.tags && s'.tags[f] == s.tags[f] && (f != table && f < |s.mem| ==> s'.mem[f] == s.mem[f])
  }

  ghost predicate TableFor(s: Snap, table: nat, root: nat, level: nat, base: nat) {
    && 1 <= level <= 4 && base < LOW_PAGES && Aligned(level, base)
    && table in s.tags && s.tags[table].root == root && s.tags[table].path == PathOf(base)[..4 - level]
    && s.tags[table].slots == AllSlots(s.tags[table].path)
  }

  /** Table `c` was hung on word `i` of `table`, for the pages from `b` on. */
  ghost predicate Hung(s1: Snap, s2: Snap, table: nat, root: nat, level: nat, base: nat, i: nat, c: nat, b: nat) {
    && TableFor(s1, table, root, level, base) && level >= 2 && i < Width(level) && Shaped(s1.mem, s1.used)
    && b == PageAt(level, base, i) < LOW_PAGES
    && c !in s1.tags && c < |s1.mem| && c < FRAMES && table < |s1.mem|
    && s2.tags == Linked(s1.tags, table, i, c) && s2.mem == WithTable(s1.mem, table, i, c)
  }

  lemma HungPath(s1: Snap, s2: Snap, table: nat, root: nat, level: nat, base: nat, i: nat, c: nat, b: nat)
    requires Hung(s1, s2, table, root, level, base, i, c, b)
    ensures s2.tags[c].path == PathOf(b)[..5 - level] && Aligned(level - 1, b)
  {
    PathStep(level, base, i, b);
  }

  lemma HungPlaced(s1: Snap, s2: Snap, table: nat, root: nat, level: nat, base: nat, i: nat, c: nat, b: nat, but: nat,
                   f: nat)
    requires Hung(s1, s2, table, root, level, base, i, c, b) && f in s2.tags && (but == table || but == root)
    requires f != root
    requires f in s1.tags ==> Placed(s1, root, f, b, but)
    ensures Placed(s2, root, f, if level == 2 then b + 1 else b, c)
  {
    HungPath(s1, s2, table, root, level, base, i, c, b);
    if f == c {
      if level == 2 { BaseOf(b); }
    } else if f == table {
      assert s2.mem[table][i] != 0;
    } else {
      assert f < |s1.mem| ==> s2.mem[f] == s1.mem[f];
    }
  }

  lemma HungHasL1(s1: Snap, s2: Snap, table: nat, root: nat, level: nat, base: nat, i: nat, c: nat, b: nat, m: nat)
    requires Hung(s1, s2, table, root, level, base, i, c, b)
    requires HasL1(s1, root, m) || (level == 2 && 512 * m == b)
    ensures HasL1(s2, root, m)
  {
    HungPath(s1, s2, table, root, level, base, i, c, b);
    if HasL1(s1, root, m) {
      var f: nat :| L1At(s1, root, m, f);
      assert L1At(s2, root, m, f);
    } else {
      assert L1At(s2, root, m, c);
    }
  }

  lemma LayoutLinks(s0: Snap, s1: Snap, s2: Snap, table: nat, root: nat, level: nat, base: nat, i: nat, c: nat, b: nat,
                    but: nat)
    requires Hung(s1, s2, table, root, level, base, i, c, b) && (but == table || but == root)
    requires Layout(s0, s1, root, b, but)
    ensures Layout(s0, s2, root, if level == 2 then b + 1 else b, c)
  {
    var e := if level == 2 then b + 1 else b;
    HungPath(s1, s2, table, root, level, base, i, c, b);
    forall f | f in s2.tags && f !in s0.tags ensures Placed(s2, root, f, e, c) {
      assert f in s1.tags ==> Placed(s1, root, f, b, but);
      HungPlaced(s1, s2, table, root, level, base, i, c, b, but, f);
    }
    forall m: nat | 512 * m < e && 512 * m < LOW_PAGES ensures HasL1(s2, root, m) {
      assert 512 * m < b ==> HasL1(s1, root, m);
      HungHasL1(s1, s2, table, root, level, base, i, c, b, m);
    }
  }

  lemma LayoutMaps(s0: Snap, s1: Snap, s2: Snap, root: nat, l1: nat, e: nat, but: nat)
    requires Layout(s0, s1, root, e, but) && s2.tags == s1.tags && KeepsOthers(s1, s2, l1)
    requires l1 in s1.tags && |s1.tags[l1].path| == 3
    ensures Layout(s0, s2, root, e, but)
  {
    forall f | f in s2.tags && f !in s0.tags ensures Placed(s2, root, f, e, but) {
      assert Placed(s1, root, f, e, but);
      assert f != l1 && f < |s1.mem| ==> s2.mem[f] == s1.mem[f];
    }
    forall m: nat | 512 * m < e && 512 * m < LOW_PAGES ensures HasL1(s2, root, m) {
      assert HasL1(s1, root, m);
      var f: nat :| L1At(s1, root, m, f);
      assert L1At(s2, root, m, f);
    }
  }

  /** Between one L1 table and the next there is nothing to lay out. */
  lemma LayoutReaches(s0: Snap, s: Snap, root: nat, base: nat, e: nat, but: nat)
    requires Layout(s0, s, root, base + 1, but) && base % 512 == 0 && base < e <= base + 512 && e <= LOW_PAGES + 1
    requires but == root || (but in s.tags && |s.tags[but].path| == 3)
    ensures Layout(s0, s, root, e, root)
  {
    forall f | f in s.tags && f !in s0.tags ensures Placed(s, root, f, e, root) {
      assert Placed(s, root, f, base + 1, but);
    }
    forall m: nat | 512 * m < e && 512 * m < LOW_PAGES ensures HasL1(s, root, m) {
      assert 512 * m < base + 1;
    }
  }

  // ----- The nested loops -----

  /** Since `s0`, when the root was made: exactly the pages from `start` up to the block index `b` are mapped, and the
      tables are laid out up to page `e`. */
  ghost predicate Stage(s0: Snap, s: Snap, root: nat, start: nat, b: nat, e: nat, but: nat) {
    && RangeClear(s0.mem, root, 0, LOW_PAGES) && MappedSince(s0, s, root, start, Reached(start, b))
    && Layout(s0, s, root, e, but)
  }

  ghost predicate ZeroFrom(s: Snap, table: nat, i: nat) {
    && table < |s.mem| && |s.mem[table]| == ENTRIES
    && forall j | i <= j < ENTRIES && table in s.tags && j in s.tags[table].slots :: s.mem[table][j] == 0
  }

  /** The loop over `table`, begun in `s1`, stands in front of word `i`. */
  ghost predicate AtWord(s1: Snap, s: Snap, table: nat, root: nat, level: nat, base: nat, i: nat) {
    KeepsOthers(s1, s, table) && ZeroFrom(s, table, i) && TableFor(s, table, root, level, base)
  }

  /** Both: the loop is in front of word `i`, and the build has come to page `b`. */
  ghost predicate LoopAt(s0: Snap, s1: Snap, s: Snap, table: nat, root: nat, level: nat, base: nat, i: nat, start: nat,
                         b: nat, but: nat) {
    AtWord(s1, s, table, root, level, base, i) && Stage(s0, s, root, start, b, b, but)
  }

  lemma StageGrows(s0: Snap, s1: Snap, s2: Snap, root: nat, l1: nat, start: nat, page: nat, e: nat)
    requires start <= page < LOW_PAGES && Stage(s0, s1, root, start, page, e, root)
    requires MappedSince(s1, s2, root, page, page + 1) && KeepsOthers(s1, s2, l1) && s2.tags == s1.tags
    requires l1 in s1.tags && |s1.tags[l1].path| == 3
    ensures Stage(s0, s2, root, start, page + 1, e, root)
  {
    MappedNext(s0, s1, s2, root, start, page, page);
    LayoutMaps(s0, s1, s2, root, l1, e, root);
  }

  method BuildLeaf(ram: PhysicalMemory, l1: nat, page: nat, start: nat, ghost s0: Snap, ghost root: nat, ghost e: nat)
    returns (ok: bool)
    requires ram.Valid() && start <= page < LOW_PAGES && Stage(s0, ram.Now(), root, start, page, e, root)
    requires l1 in ram.tags && ram.tags[l1].root == root && ram.tags[l1].path == PathOf(page)[..3]
    modifies ram`mem, ram`used, ram`tags
    ensures !ok ==> ram.Exhausted()
    ensures ok ==> ram.Valid() && Stage(s0, ram.Now(), root, start, page + 1, e, root)
    ensures ok ==> KeepsOthers(old(ram.Now()), ram.Now(), l1)
  {
    ghost var s1 := ram.Now();
    var phys;
    assert Governed(ram.tags, root, page);
    ok, phys := ram.MapLeaf(l1, page);
    if !ok { return; }
    PageIsMapped(s1, ram.Now(), root, page, phys);
    StageGrows(s0, s1, ram.Now(), root, l1, start, page, e);
  }

  method BuildL1(ram: PhysicalMemory, l1: nat, base: nat, start: nat, total: nat, ghost s0: Snap, ghost root: nat)
    returns (ok: bool, done: bool)
    requires ram.Valid() && start <= total <= LOW_PAGES && base <= total
    requires Stage(s0, ram.Now(), root, start, base, base + 1, root) && TableFor(ram.Now(), l1, root, 1, base)
    modifies ram`mem, ram`used, ram`tags
    ensures !ok ==> ram.Exhausted()
    ensures ok ==> ram.Valid() && (done <==> total < base + 512) && KeepsOthers(old(ram.Now()), ram.Now(), l1)
    ensures ok ==> Stage(s0, ram.Now(), root, start, if done then total else base + 512, base + 1, root)
  {
    ghost var s1, e := ram.Now(), base + 1;
    var page := base;
    for i := 0 to 512
      invariant ram.Valid() && page == base + i <= total && KeepsOthers(s1, ram.Now(), l1)
      invariant Stage(s0, ram.Now(), root, start, page, e, root)
    {
      if page >= total {
        return true, true;
      }
      if page >= start {
        PathStep1(base, i);
        assert PathOf(page)[..3] == PathOf(base)[..3];
        ok := BuildLeaf(ram, l1, page, start, s0, root, e);
        if !ok { return false, false; }
      }
      page := page + 1;
    }
    return true, false;
  }

  /** Where the layout stands when the loop over a new table begins. */
  ghost function Laid(level: nat, base: nat): nat {
    if level == 1 then base + 1 else base
  }

  lemma HungTables(s1: Snap, s2: Snap, table: nat, root: nat, level: nat, base: nat, i: nat, c: nat, b: nat)
    requires Hung(s1, s2, table, root, level, base, i, c, b) && ZeroFrom(s1, table, i)
    ensures TableFor(s2, c, root, level - 1, b) && ZeroFrom(s2, c, 0)
    ensures KeepsOthers(s1, s2, table) && ZeroFrom(s2, table, i + 1) && c != table
  {
    HungPath(s1, s2, table, root, level, base, i, c, b);
  }

  method LinkWord(ram: PhysicalMemory, table: nat, i: nat, b: nat, ghost level: nat, ghost base: nat, ghost start: nat,
                  ghost s0: Snap, ghost root: nat, ghost but: nat, ghost e: nat) returns (ok: bool, c: nat)
    requires ram.Valid() && 2 <= level <= 4 && i < Width(level) && b == PageAt(level, base, i) < LOW_PAGES
    requires start <= LOW_PAGES
    requires TableFor(ram.Now(), table, root, level, base) && ZeroFrom(ram.Now(), table, i)
    requires Stage(s0, ram.Now(), root, start, b, b, but) && (but == table || but == root) && e == Laid(level - 1, b)
    modifies ram`mem, ram`used, ram`tags
    ensures !ok ==> ram.Exhausted()
    ensures ok ==> ram.Valid() && Hung(old(ram.Now()), ram.Now(), table, root, level, base, i, c, b)
    ensures ok ==> Stage(s0, ram.Now(), root, start, b, e, c)
  {
    ghost var s1 := ram.Now();
    ok, c := ram.LinkNew(table, i);
    if !ok { return; }
    assert Hung(s1, ram.Now(), table, root, level, base, i, c, b);
    LinkKeepsMapped(s0, s1, ram.Now(), root, start, Reached(start, b));
    LayoutLinks(s0, s1, ram.Now(), table, root, level, base, i, c, b, but);
  }

  /** Filling the new table leaves the one it hangs on in front of the next word. */
  lemma TurnEnds(s1: Snap, s: Snap, s2: Snap, s3: Snap, table: nat, root: nat, level: nat, base: nat, i: nat, c: nat,
                 b: nat)
    requires AtWord(s1, s, table, root, level, base, i) && Hung(s, s2, table, root, level, base, i, c, b)
    requires KeepsOthers(s2, s3, c)
    ensures AtWord(s1, s3, table, root, level, base, i + 1)
  {
    HungTables(s, s2, table, root, level, base, i, c, b);
  }

  /** One turn of a loop above L1: hang a new table on word `i` and fill it from page `b` up to `next`. */
  method BuildWord(ram: PhysicalMemory, table: nat, i: nat, level: nat, b: nat, next: nat, start: nat, total: nat,
                   ghost base: nat, ghost s0: Snap, ghost root: nat, ghost s1: Snap, ghost but: nat)
    returns (ok: bool, done: bool)
    requires ram.Valid() && start <= total <= LOW_PAGES && 2 <= level <= 4 && i < Width(level)
    requires b == PageAt(level, base, i) <= total && b < LOW_PAGES && next == b + Span(level)
    requires LoopAt(s0, s1, ram.Now(), table, root, level, base, i, start, b, but) && (but == table || but == root)
    modifies ram`mem, ram`used, ram`tags
    ensures !ok ==> ram.Exhausted()
    ensures ok ==> ram.Valid() && (done <==> total < next)
    ensures ok && done ==> KeepsOthers(s1, ram.Now(), table)
    ensures ok && done ==> Stage(s0, ram.Now(), root, start, total, total + 1, root)
    ensures ok && !done ==> LoopAt(s0, s1, ram.Now(), table, root, level, base, i + 1, start, next, root)
    decreases level, 0
  {
    var c;
    done := false;
    ghost var s, e := ram.Now(), Laid(level - 1, b);
    ok, c := LinkWord(ram, table, i, b, level, base, start, s0, root, but, e);
    if !ok { return; }
    ghost var s2 := ram.Now();
    HungTables(s, s2, table, root, level, base, i, c, b);
    ok, done := BuildBelow(ram, c, level - 1, b, next, start, total, s0, root, e);
    if ok { TurnEnds(s1, s, s2, ram.Now(), table, root, level, base, i, c, b); }
  }

  lemma SpanStep(level: nat, base: nat, i: nat)
    requires 1 <= level <= 4 && i < Width(level)
    ensures PageAt(level, base, i + 1) == PageAt(level, base, i) + Span(level) <= base + Extent(level)
    ensures i + 1 == Width(level) ==> PageAt(level, base, i + 1) == base + Extent(level)
  {}

  /** The loops of one level and everything below, for the pages from `base` up to `end`. The build ends when a page at
      or beyond `total` comes up. */
  method BuildBelow(ram: PhysicalMemory, table: nat, level: nat, base: nat, end: nat, start: nat, total: nat,
                    ghost s0: Snap, ghost root: nat, ghost e: nat) returns (ok: bool, done: bool)
    requires ram.Valid() && start <= total <= LOW_PAGES && base <= total
    requires TableFor(ram.Now(), table, root, level, base) && ZeroFrom(ram.Now(), table, 0)
    requires end == base + Extent(level) && e == Laid(level, base) && Stage(s0, ram.Now(), root, start, base, e, table)
    modifies ram`mem, ram`used, ram`tags
    ensures !ok ==> ram.Exhausted()
    ensures ok ==> ram.Valid() && (done <==> total < end) && KeepsOthers(old(ram.Now()), ram.Now(), table)
    ensures ok && done ==> Stage(s0, ram.Now(), root, start, total, total + 1, root)
    ensures ok && !done ==> Stage(s0, ram.Now(), root, start, end, end, root)
    decreases level, 2
  {
    if level == 1 {
      ok, done := BuildLast(ram, table, base, end, start, total, s0, root);
    } else {
      ok, done := BuildWords(ram, table, level, base, end, start, total, s0, root);
    }
  }

  method BuildLast(ram: PhysicalMemory, table: nat, base: nat, end: nat, start: nat, total: nat, ghost s0: Snap,
                   ghost root: nat)
    returns (ok: bool, done: bool)
    requires ram.Valid() && start <= total <= LOW_PAGES && base <= total && end == base + 512
    requires TableFor(ram.Now(), table, root, 1, base) && Stage(s0, ram.Now(), root, start, base, base + 1, table)
    modifies ram`mem, ram`used, ram`tags
    ensures !ok ==> ram.Exhausted()
    ensures ok ==> ram.Valid() && (done <==> total < end) && KeepsOthers(old(ram.Now()), ram.Now(), table)
    ensures ok && done ==> Stage(s0, ram.Now(), root, start, total, total + 1, root)
    ensures ok && !done ==> Stage(s0, ram.Now(), root, start, end, end, root)
  {
    LayoutReaches(s0, ram.Now(), root, base, base + 1, table);
    ok, done := BuildL1(ram, table, base, start, total, s0, root);
    if ok {
      Fits(1, base);
      LayoutReaches(s0, ram.Now(), root, base, if done then total + 1 else end, root);
    }
  }

  method BuildWords(ram: PhysicalMemory, table: nat, level: nat, base: nat, end: nat, start: nat, total: nat,
                    ghost s0: Snap, ghost root: nat) returns (ok: bool, done: bool)
    requires ram.Valid() && start <= total <= LOW_PAGES && base <= total && 2 <= level <= 4
    requires end == base + Extent(level)
    requires TableFor(ram.Now(), table, root, level, base) && ZeroFrom(ram.Now(), table, 0)
    requires Stage(s0, ram.Now(), root, start, base, base, table)
    modifies ram`mem, ram`used, ram`tags
    ensures !ok ==> ram.Exhausted()
    ensures ok ==> ram.Valid() && (done <==> total < end) && KeepsOthers(old(ram.Now()), ram.Now(), table)
    ensures ok && done ==> Stage(s0, ram.Now(), root, start, total, total + 1, root)
    ensures ok && !done ==> Stage(s0, ram.Now(), root, start, end, end, root)
    decreases level, 1
  {
    Fits(level, base);
    var b := base;
    ghost var s1, but := ram.Now(), table;
    for i := 0 to Width(level)
      invariant ram.Valid() && b == PageAt(level, base, i) <= total && (i == Width(level) ==> b == end)
      invariant LoopAt(s0, s1, ram.Now(), table, root, level, base, i, start, b, but)
                && but == if i == 0 then table else root
    {
      SpanStep(level, base, i);
      var next := b + Span(level);
      ok, done := BuildWord(ram, table, i, level, b, next, start, total, base, s0, root, s1, but);
      if !ok || done { return; }
      b, but := next, root;
    }
    return true, false;
  }

  // ----- The kernel's half, and the whole -----

  lemma HighWordIsSound(s: Snap, r: nat, i: nat, word: nat)
    requires Sound(s.mem, s.used, s.tags) && IsRoot(s.tags, r) && LOW_L4 <= i < ENTRIES && r < |s.mem|
    ensures Sound(Poke(s.mem, r, i, word), s.used, s.tags)
  {
    var mem' := Poke(s.mem, r, i, word);
    forall f | f in s.tags ensures Referred(mem', s.tags, f) {
      assert Referred(s.mem, s.tags, f);
      if s.tags[f].path != [] { assert TagOk(s.used, s.tags, s.tags[f].parent); }
    }
    forall f, j | f in s.tags && j in s.tags[f].slots ensures Leads(mem', s.used, s.tags, f, j) {
      assert Leads(s.mem, s.used, s.tags, f, j) && TagOk(s.used, s.tags, f);
    }
  }

  method CopyKernelWords(ram: PhysicalMemory, root: nat, kernelL4: seq<nat>)
    requires ram.Valid() && IsRoot(ram.tags, root) && |kernelL4| == LOW_L4
    modifies ram`mem
    ensures ram.Valid() && Evolves(old(ram.Now()), ram.Now()) && SameTranslations(old(ram.Now()), ram.Now())
    ensures root < |ram.mem| && |ram.mem[root]| == 512 && ram.mem[root][128..256] == kernelL4
    ensures root < |old(ram.mem)| && ram.mem == old(ram.mem)[root := ram.mem[root]]
  {
    assert TagOk(ram.used, ram.tags, root);
    for i := 0 to LOW_L4
      invariant |ram.mem| == |old(ram.mem)| && root < |ram.mem| && ram.mem == old(ram.mem)[root := ram.mem[root]]
      invariant ram.Valid() && Evolves(old(ram.Now()), ram.Now()) && SameTranslations(old(ram.Now()), ram.Now())
      invariant root < |ram.mem| && |ram.mem[root]| == ENTRIES
      invariant forall j | 0 <= j < i :: ram.mem[root][LOW_L4 + j] == kernelL4[j]
    {
      ghost var s := ram.Now();
      HighWordIsSound(s, root, i + LOW_L4, kernelL4[i]);
      ram.mem := Poke(ram.mem, root, i + LOW_L4, kernelL4[i]);
      forall r: nat, p: nat | Governed(s.tags, r, p) ensures Translate(ram.mem, r, p) == Translate(s.mem, r, p) {
        assert PathOf(p)[0] < LOW_L4;
        WriteElsewhere(s.mem, s.used, s.tags, ram.mem, root, i + LOW_L4, r, p);
      }
    }
  }

  /** The new low half maps exactly `lo..hi`, to distinct frames that were free; nobody else's pages moved. */
  ghost predicate BuiltExactly(s: Snap, s': Snap, root: nat, lo: nat, hi: nat) {
    && Evolves(s, s') && SameTranslations(s, s') && root !in s.tags && Whole(s'.tags, root)
    && (forall p: nat {:trigger Fresh(s, s', root, p)} | p < LOW_PAGES ::
          if lo <= p < hi then Fresh(s, s', root, p) else Translate(s'.mem, root, p) == 0)
    && (forall p: nat, q: nat {:trigger Fresh(s, s', root, p), Fresh(s, s', root, q)} | lo <= p < q < hi ::
          FrameOf(Translate(s'.mem, root, p)) != FrameOf(Translate(s'.mem, root, q)))
  }

  ghost predicate Fresh(s: Snap, s': Snap, root: nat, p: nat) {
    var word := Translate(s'.mem, root, p);
    var d := FrameOf(word);
    word == d * 4096 + 7 && d < |s.used| && !s.used[d] && d < |s'.used| && s'.used[d]
  }

  lemma BuildFinishes(s: Snap, s0: Snap, s1: Snap, s2: Snap, root: nat, lo: nat, hi: nat)
    requires Sound(s.mem, s.used, s.tags) && root < |s.used| && !s.used[root] && s0 == WithBlankRoot(s, root)
    requires Evolves(s, s0) && SameTranslations(s, s0) && Whole(s0.tags, root)
    requires RangeClear(s0.mem, root, 0, LOW_PAGES) && lo <= hi <= LOW_PAGES && MappedSince(s0, s1, root, lo, hi)
    requires Evolves(s1, s2) && SameTranslations(s1, s2)
    ensures BuiltExactly(s, s2, root, lo, hi)
  {
    FreeIsNoTable(s.mem, s.used, s.tags, root);
    LinkKeepsMapped(s0, s1, s2, root, lo, hi);
    EvolvesTransitively(s, s0, s2);
    assert SameTranslations(s, s2) by {
      forall r: nat, p: nat | Governed(s.tags, r, p)
        ensures Governed(s2.tags, r, p) && Translate(s2.mem, r, p) == Translate(s.mem, r, p)
      {
        assert Governed(s0.tags, r, p) && r != root;
      }
    }
    forall p: nat | p < LOW_PAGES
      ensures if lo <= p < hi then Fresh(s, s2, root, p) else Translate(s2.mem, root, p) == 0
    {
      assert Governed(s0.tags, root, p) && Translate(s0.mem, root, p) == 0;
      assert lo <= p < hi ==> PageMapped(s0, s2, root, p);
    }
    forall p: nat, q: nat | lo <= p < q < hi
      ensures FrameOf(Translate(s2.mem, root, p)) != FrameOf(Translate(s2.mem, root, q))
    {
      assert Apart(s0, s2, root, p, q) && Translate(s0.mem, root, p) == 0 && Translate(s0.mem, root, q) == 0;
    }
  }

  lemma RootTable(s: Snap, root: nat)
    requires root < |s.used| == |s.mem|
    ensures var s0 := WithBlankRoot(s, root);
            TableFor(s0, root, root, 4, 0) && ZeroFrom(s0, root, 0) && Layout(s0, s0, root, 0, root)
  {
    assert PathOf(0)[..0] == [];
  }

  ghost predicate LowHalfBuilt(s: Snap, s0: Snap, s1: Snap, root: nat, start: nat, total: nat) {
    && root < |s.used| && root < |s.mem| && !s.used[root] && s0 == WithBlankRoot(s, root)
    && Evolves(s, s0) && SameTranslations(s, s0) && Whole(s0.tags, root) && KeepsOthers(s0, s1, root)
    && Stage(s0, s1, root, start, total, LaidOut(total), root)
  }

  lemma BuildBegins(s0: Snap, root: nat, start: nat)
    requires AllGoverned(s0.tags, root) && RangeClear(s0.mem, root, 0, LOW_PAGES) && Layout(s0, s0, root, 0, root)
    ensures Stage(s0, s0, root, start, 0, 0, root)
  {}

  method BuildLowHalf(ram: PhysicalMemory, start: nat, total: nat) returns (ok: bool, root: nat, ghost s0: Snap)
    requires ram.Valid() && start <= total <= LOW_PAGES
    modifies ram`mem, ram`used, ram`tags
    ensures !ok ==> ram.Exhausted()
    ensures ok ==> ram.Valid() && IsRoot(ram.tags, root)
    ensures ok ==> LowHalfBuilt(old(ram.Now()), s0, ram.Now(), root, start, total)
  {
    var done;
    ok, root := NewRoot(ram);
    s0 := ram.Now();
    if !ok { return; }
    RootTable(old(ram.Now()), root);
    BuildBegins(s0, root, start);
    ok, done := BuildBelow(ram, root, 4, 0, LOW_PAGES, start, total, s0, root, 0);
  }

  // ----- Which of the tables are empty -----

  /** How far the tables reach: also the table in which the end came up was made, unless the low half was full. */
  ghost function LaidOut(total: nat): nat {
    if total == LOW_PAGES then LOW_PAGES else total + 1
  }

  /** The requests after which every new table holds a word. */
  predicate FillsTables(start: nat, total: nat) {
    start < 512 && start < total && (total % 512 != 0 || total == LOW_PAGES)
  }

  ghost predicate MapsExactly(s: Snap, root: nat, lo: nat, hi: nat) {
    forall p: nat {:trigger Translate(s.mem, root, p)} | p < LOW_PAGES ::
        Translate(s.mem, root, p) != 0 <==> lo <= p < hi
  }

  lemma LeafOfTable(s: Snap, f: nat, i: nat)
    requires Sound(s.mem, s.used, s.tags) && f in s.tags && |s.tags[f].path| == 3 && i < 512
    requires Base(s.tags[f].path) % 512 == 0 && s.tags[f].path == PathOf(Base(s.tags[f].path))[..3]
    ensures Load(s.mem, f, i) == Translate(s.mem, s.tags[f].root, Base(s.tags[f].path) + i)
  {
    PathStep1(Base(s.tags[f].path), i);
    WalkPassesTable(s.mem, s.used, s.tags, f, [i]);
  }

  /** An L1 table has a word exactly if one of its 512 pages is mapped. */
  lemma L1HasWord(s: Snap, f: nat, base: nat, lo: nat, hi: nat)
    requires Sound(s.mem, s.used, s.tags) && f in s.tags && |s.tags[f].path| == 3 && base == Base(s.tags[f].path)
    requires base % 512 == 0 && base < LOW_PAGES && s.tags[f].path == PathOf(base)[..3]
    requires MapsExactly(s, s.tags[f].root, lo, hi) && hi <= LOW_PAGES
    ensures HasWord(s.mem, f) <==> lo < base + 512 && base < hi && lo < hi
  {
    assert TagOk(s.used, s.tags, f);
    Fits(1, base);
    var p := if lo < base then base else lo;
    if lo < base + 512 && base < hi && lo < hi {
      LeafOfTable(s, f, p - base);
      assert s.mem[f][p - base] != 0;
    } else {
      forall i | 0 <= i < 512 ensures s.mem[f][i] == 0 {
        LeafOfTable(s, f, i);
      }
    }
  }

  /** A table the build made is not empty, if the request fills its tables. */
  lemma MadeIsFull(s: Snap, root: nat, f: nat, lo: nat, hi: nat)
    requires Sound(s.mem, s.used, s.tags) && f in s.tags && f != root && Placed(s, root, f, LaidOut(hi), root)
    requires MapsExactly(s, root, lo, hi) && hi <= LOW_PAGES && FillsTables(lo, hi)
    ensures HasWord(s.mem, f)
  {
    if |s.tags[f].path| == 3 {
      var base := Base(s.tags[f].path);
      assert base < hi;
      L1HasWord(s, f, base, lo, hi);
    }
  }

  /** Otherwise the first L1 table or the one in which the end came up is empty. */
  lemma OneIsEmpty(s: Snap, root: nat, lo: nat, hi: nat) returns (f: nat)
    requires Sound(s.mem, s.used, s.tags) && MapsExactly(s, root, lo, hi) && lo <= hi <= LOW_PAGES
    requires !FillsTables(lo, hi)
    requires forall m: nat | 512 * m < LaidOut(hi) && 512 * m < LOW_PAGES :: HasL1(s, root, m)
    ensures Empty(s, f) && s.tags[f].root == root
  {
    var m := if lo < 512 && lo < hi then hi / 512 else 0;
    assert HasL1(s, root, m);
    f :| L1At(s, root, m, f);
    BaseOf(512 * m);
    L1HasWord(s, f, 512 * m, lo, hi);
  }

  /** The build leaves no new empty table if and only if the request fills its tables. */
  lemma EmptyExactly(s: Snap, s0: Snap, s1: Snap, s2: Snap, root: nat, lo: nat, hi: nat)
    requires Sound(s.mem, s.used, s.tags) && root < |s.used| && !s.used[root] && s0 == WithBlankRoot(s, root)
    requires KeepsOthers(s0, s1, root) && Layout(s0, s1, root, LaidOut(hi), root) && Sound(s2.mem, s2.used, s2.tags)
    requires s2.tags == s1.tags && root < |s1.mem| && |s2.mem| == |s1.mem| && s2.mem == s1.mem[root := s2.mem[root]]
    requires MapsExactly(s2, root, lo, hi) && lo <= hi <= LOW_PAGES
    ensures NoNewEmpty(s, s2) <==> FillsTables(lo, hi)
  {
    FreeIsNoTable(s.mem, s.used, s.tags, root);
    if FillsTables(lo, hi) {
      forall f: nat | Empty(s2, f) ensures Empty(s, f) {
        NewIsFull(s, s0, s1, s2, root, lo, hi, f);
      }
    } else {
      forall m: nat | 512 * m < LaidOut(hi) && 512 * m < LOW_PAGES ensures HasL1(s2, root, m) {
        assert HasL1(s1, root, m);
        var g: nat :| L1At(s1, root, m, g);
        assert L1At(s2, root, m, g);
      }
      var f := OneIsEmpty(s2, root, lo, hi);
      assert !HasWord(s2.mem, f);
      if f in s.tags { OwnerIsTable(s.mem, s.used, s.tags, f); }
    }
  }

  lemma NewIsFull(s: Snap, s0: Snap, s1: Snap, s2: Snap, root: nat, lo: nat, hi: nat, f: nat)
    requires Sound(s.mem, s.used, s.tags) && root < |s.used| && !s.used[root] && s0 == WithBlankRoot(s, root)
    requires KeepsOthers(s0, s1, root) && Layout(s0, s1, root, LaidOut(hi), root) && Sound(s2.mem, s2.used, s2.tags)
    requires s2.tags == s1.tags && root < |s1.mem| && |s2.mem| == |s1.mem| && s2.mem == s1.mem[root := s2.mem[root]]
    requires MapsExactly(s2, root, lo, hi) && hi <= LOW_PAGES && FillsTables(lo, hi) && Empty(s2, f)
    ensures Empty(s, f)
  {
    assert TagOk(s2.used, s2.tags, f);
    assert f != root && s2.mem[f] == s1.mem[f];
    if f in s0.tags {
      assert s1.mem[f] == s0.mem[f] == s.mem[f];
      assert !HasWord(s.mem, f);
    } else {
      assert Placed(s1, root, f, LaidOut(hi), root);
      assert HasWord(s1.mem, f) ==> HasWord(s2.mem, f);
      MadeIsFull(s2, root, f, lo, hi);
    }
  }

  method BuildTables(ram: PhysicalMemory, start: nat, total: nat, kernelL4: seq<nat>) returns (ok: bool, root: nat)
    requires ram.Valid() && start <= total <= LOW_PAGES && |kernelL4| == LOW_L4
    modifies ram`mem, ram`used, ram`tags
    ensures !ok ==> ram.Exhausted()
    ensures ok ==> ram.Valid() && BuiltExactly(old(ram.Now()), ram.Now(), root, start, total)
    ensures ok ==> root < |ram.mem| && |ram.mem[root]| == ENTRIES && ram.mem[root][LOW_L4..2 * LOW_L4] == kernelL4
    ensures ok ==> (NoNewEmpty(old(ram.Now()), ram.Now()) <==> FillsTables(start, total))
  {
    ghost var s0;
    ok, root, s0 := BuildLowHalf(ram, start, total);
    if !ok { return; }
    ghost var s1 := ram.Now();
    CopyKernelWords(ram, root, kernelL4);
    BuildEnds(old(ram.Now()), s0, s1, ram.Now(), root, start, total);
  }

  /** `create_page_table_for_process`. It also hangs L1 tables it never writes, below the first page and when the end is
      at a table boundary. */
  method CreatePageTable(ram: PhysicalMemory, pid: nat, count: nat, start: nat, kernelL4: seq<nat>) returns (ok: bool)
    requires ram.Valid() && start + count <= LOW_PAGES && |kernelL4| == LOW_L4
    modifies ram
    ensures !ok ==> ram.Exhausted()
    ensures ok ==> ram.Valid() && pid in ram.cr3 && ram.cr3 == old(ram.cr3)[pid := ram.cr3[pid]]
    ensures ok ==> BuiltExactly(old(ram.Now()), ram.Now(), ram.cr3[pid], start, start + count)
    ensures ok ==> var l4 := ram.cr3[pid];
                   l4 < |ram.mem| && |ram.mem[l4]| == 512 && ram.mem[l4][128..256] == kernelL4
    ensures ok ==> (NoNewEmpty(old(ram.Now()), ram.Now()) <==> FillsTables(start, start + count))
  {
    var root;
    ok, root := BuildTables(ram, start, start + count, kernelL4);
    if !ok { return; }
    ram.cr3 := ram.cr3[pid := root];
  }

  lemma BuildEnds(s: Snap, s0: Snap, s1: Snap, s2: Snap, root: nat, start: nat, total: nat)
    requires Sound(s.mem, s.used, s.tags) && start <= total <= LOW_PAGES && LowHalfBuilt(s, s0, s1, root, start, total)
    requires Evolves(s1, s2) && SameTranslations(s1, s2) && Sound(s2.mem, s2.used, s2.tags)
    requires s2.tags == s1.tags && root < |s1.mem| && |s2.mem| == |s1.mem| && s2.mem == s1.mem[root := s2.mem[root]]
    ensures BuiltExactly(s, s2, root, start, total) && (NoNewEmpty(s, s2) <==> FillsTables(start, total))
  {
    BuildFinishes(s, s0, s1, s2, root, start, total);
    BuiltMapsExactly(s, s2, root, start, total);
    EmptyExactly(s, s0, s1, s2, root, start, total);
  }

  lemma BuiltMapsExactly(s: Snap, s': Snap, root: nat, lo: nat, hi: nat)
    requires BuiltExactly(s, s', root, lo, hi)
    ensures MapsExactly(s', root, lo, hi)
  {
    forall p: nat | p < LOW_PAGES ensures Translate(s'.mem, root, p) != 0 <==> lo <= p < hi {
      var isFresh := Fresh(s, s', root, p);
      assert if lo <= p < hi then isFresh else Translate(s'.mem, root, p) == 0;
    }
  }
}
