/** Four-level page tables as they lie in physical memory (core/scheduler.h), and what keeps them
    apart. A table is a frame of 512 words; a word is zero or names a frame and carries flags. */
module PageTables {

  const ENTRIES := 512
  const LOW_L4 := 128                         // L4 slots below HM
  const LOW_PAGES := 128 * 512 * 512 * 512    // pages below HM
  const FRAMES := 0x100_0000_0000             // frame numbers fit in bits 12..51 of a word
  const FLAGS := 7                            // PTE_PRESENT | PTE_RW | PTE_USER

  type Memory = seq<seq<nat>>

  function FrameOf(word: nat): nat {
    word / 4096 % FRAMES
  }

  function FlagsOf(word: nat): nat {
    word % 4096
  }

  function MakeEntry(frame: nat, flags: nat): (word: nat)
    requires frame < FRAMES && flags < 4096
    ensures FrameOf(word) == frame && FlagsOf(word) == flags
    ensures flags > 0 || frame > 0 ==> word != 0
  {
    frame * 4096 + flags
  }

  /** The table indices of a page, L4 first: nine bits each, a shift by 18 or 27 bits written as shifts by 9. */
  function PathOf(page: nat): (path: seq<nat>)
    ensures |path| == 4 && forall k | 0 <= k < 4 :: path[k] < ENTRIES
    ensures page < LOW_PAGES ==> path[0] < LOW_L4
  {
    [page / 512 / 512 / 512 % 512, page / 512 / 512 % 512, page / 512 % 512, page % 512]
  }

  lemma PathIsUnique(a: nat, b: nat)
    requires a < LOW_PAGES && b < LOW_PAGES && PathOf(a) == PathOf(b)
    ensures a == b
  {
    assert PathOf(a)[0] == PathOf(b)[0] && PathOf(a)[1] == PathOf(b)[1];
    assert PathOf(a)[2] == PathOf(b)[2] && PathOf(a)[3] == PathOf(b)[3];
    Recompose(a);
    Recompose(b);
  }

  lemma Recompose(a: nat)
    requires a < LOW_PAGES
    ensures var p := PathOf(a); a == p[0] * 134217728 + p[1] * 262144 + p[2] * 512 + p[3]
  {
    var q := a / 512;
    var r := q / 512;
    assert a == 512 * q + a % 512 && q == 512 * r + q % 512 && r == 512 * (r / 512) + r % 512;
    assert r / 512 < LOW_L4;
  }

  /** A table word; words outside physical memory read as zero. */
  function Load(mem: Memory, f: nat, i: nat): nat {
    if f < |mem| && i < |mem[f]| then mem[f][i] else 0
  }

  /** The word a walk from table `f` along `path` ends at; zero as soon as a word on the way is zero. */
  function Walk(mem: Memory, f: nat, path: seq<nat>): nat
    requires path != []
    decreases |path|
  {
    var word := Load(mem, f, path[0]);
    if |path| == 1 || word == 0 then word else Walk(mem, FrameOf(word), path[1..])
  }

  /** The leaf word of a page; the page is mapped when it is not zero. */
  function Translate(mem: Memory, root: nat, page: nat): nat {
    Walk(mem, root, PathOf(page))
  }

  /** Which table a frame is: the one at `path` below `root`, named by a word of `parent`. Only the words
      in `slots` are its own; a table that was copied without being erased holds stale words elsewhere. */
  datatype Node = Node(root: nat, path: seq<nat>, parent: nat, slots: set<nat>)

  type Tags = map<nat, Node>

  predicate IsSlot(path: seq<nat>, i: nat) {
    i < if path == [] then LOW_L4 else ENTRIES
  }

  ghost function AllSlots(path: seq<nat>): set<nat> {
    set i: nat | i < ENTRIES && IsSlot(path, i)
  }

  ghost predicate Shaped(mem: Memory, used: seq<bool>) {
    && |mem| == |used| <= FRAMES
    && forall f | 0 <= f < |mem| :: |mem[f]| == ENTRIES
  }

  ghost predicate Separate(tags: Tags, f: nat, g: nat)
    requires f in tags && g in tags
  {
    tags[f].root == tags[g].root && tags[f].path == tags[g].path ==> f == g
  }

  ghost predicate TagOk(used: seq<bool>, tags: Tags, f: nat)
    requires f in tags
  {
    && f < |used| && used[f]
    && |tags[f].path| <= 3 && tags[f].slots <= AllSlots(tags[f].path)
    && (tags[f].path == [] ==> tags[f].root == f)
  }

  /** A word of a table leads to the table one level down, or at L1 to a frame that is no table; it is present, writable
      and the user's. */
  ghost predicate Leads(mem: Memory, used: seq<bool>, tags: Tags, f: nat, i: nat)
    requires f in tags
  {
    && f < |mem| && i < |mem[f]|
    && (mem[f][i] != 0 ==>
          var c := FrameOf(mem[f][i]);
          && FlagsOf(mem[f][i]) == 7 && c < |used| && used[c]
          && if |tags[f].path| < 3
             then c in tags && tags[c].root == tags[f].root && tags[c].path == tags[f].path + [i]
             else c !in tags)
  }

  /** A table below L4 has a referrer; by `Separate` and `Leads` it has no other. */
  ghost predicate Referred(mem: Memory, tags: Tags, f: nat)
    requires f in tags
  {
    var n := |tags[f].path|;
    n > 0 ==>
      var g, i := tags[f].parent, tags[f].path[n - 1];
      && g in tags && tags[g].root == tags[f].root && tags[g].path == tags[f].path[..n - 1] && i in tags[g].slots
      && g < |mem| && i < |mem[g]| && mem[g][i] != 0 && FrameOf(mem[g][i]) == f
  }

  // The triggers keep the solver from following parents and children on its own.
  ghost predicate Sound(mem: Memory, used: seq<bool>, tags: Tags) {
    && Shaped(mem, used)
    && (forall f {:trigger TagOk(used, tags, f)} | f in tags :: TagOk(used, tags, f))
    && (forall f {:trigger Referred(mem, tags, f)} | f in tags :: Referred(mem, tags, f))
    && (forall f, g {:trigger Separate(tags, f, g)} | f in tags && g in tags :: Separate(tags, f, g))
    && (forall f, i {:trigger Leads(mem, used, tags, f, i)} | f in tags && i in tags[f].slots ::
        Leads(mem, used, tags, f, i))
  }

  ghost predicate IsRoot(tags: Tags, r: nat) {
    r in tags && tags[r].path == []
  }

  /** A walk along `path` meets only words the tables own. */
  ghost predicate OwnPath(tags: Tags, root: nat, path: seq<nat>) {
    && |path| == 4
    && forall f | f in tags && tags[f].root == root && |tags[f].path| < 4 && tags[f].path <= path ::
         path[|tags[f].path|] in tags[f].slots
  }

  ghost predicate Governed(tags: Tags, root: nat, page: nat) {
    page < LOW_PAGES && IsRoot(tags, root) && OwnPath(tags, root, PathOf(page))
  }

  /** Every word of every table of the process is its own. */
  ghost predicate Whole(tags: Tags, root: nat) {
    IsRoot(tags, root) && forall f | f in tags && tags[f].root == root :: tags[f].slots == AllSlots(tags[f].path)
  }

  lemma WholeIsGoverned(tags: Tags, root: nat, page: nat)
    requires Whole(tags, root) && page < LOW_PAGES
    ensures Governed(tags, root, page)
  {}

  ghost predicate SameWordsBut(mem: Memory, mem': Memory, tags: Tags, g: nat, j: nat) {
    && |mem'| == |mem|
    && (forall f | f in tags && f < |mem| :: |mem'[f]| == |mem[f]|)
    && (forall f, i | f in tags && f < |mem| && 0 <= i < |mem[f]| && (f != g || i != j) :: mem'[f][i] == mem[f][i])
  }

  /** The framing fact: a word of one table is seen only by the walks that pass through it. */
  lemma {:induction false} WordIsPrivate(mem: Memory, used: seq<bool>, tags: Tags, mem': Memory, g: nat, j: nat,
                                         f: nat, path: seq<nat>, k: nat)
    requires Sound(mem, used, tags) && SameWordsBut(mem, mem', tags, g, j) && g in tags
    requires k < 4 && f in tags && OwnPath(tags, tags[f].root, path) && tags[f].path == path[..k]
    requires !(tags[g].root == tags[f].root && tags[g].path + [j] <= path)
    ensures Walk(mem', f, path[k..]) == Walk(mem, f, path[k..])
    decreases 4 - k
  {
    var i := path[k];
    assert Leads(mem, used, tags, f, i);
    assert path[..k + 1] == path[..k] + [i];
    assert mem'[f][i] == mem[f][i];
    if k < 3 && mem[f][i] != 0 {
      assert path[k..][1..] == path[k + 1..];
      WordIsPrivate(mem, used, tags, mem', g, j, FrameOf(mem[f][i]), path, k + 1);
    }
  }

  /** Walking from the root down to a table and on is walking on from that table. */
  lemma {:induction false} WalkPassesTable(mem: Memory, used: seq<bool>, tags: Tags, f: nat, rest: seq<nat>)
    requires Sound(mem, used, tags) && f in tags && rest != []
    ensures Walk(mem, tags[f].root, tags[f].path + rest) == Walk(mem, f, rest)
    decreases |tags[f].path|
  {
    var path := tags[f].path;
    assert TagOk(used, tags, f) && Referred(mem, tags, f);
    if path == [] {
      assert path + rest == rest;
    } else {
      var i := path[|path| - 1];
      WalkPassesTable(mem, used, tags, tags[f].parent, [i] + rest);
      assert path[..|path| - 1] + ([i] + rest) == path + rest;
      assert ([i] + rest)[1..] == rest;
    }
  }

  /** The framing fact for whole translations. */
  lemma WriteElsewhere(mem: Memory, used: seq<bool>, tags: Tags, mem': Memory, g: nat, j: nat, r: nat, p: nat)
    requires Sound(mem, used, tags) && SameWordsBut(mem, mem', tags, g, j) && g in tags && Governed(tags, r, p)
    requires !(tags[g].root == r && tags[g].path + [j] <= PathOf(p))
    ensures Translate(mem', r, p) == Translate(mem, r, p)
  {
    var path := PathOf(p);
    assert path[0..] == path && path[..0] == [];
    assert TagOk(used, tags, r);
    WordIsPrivate(mem, used, tags, mem', g, j, r, path, 0);
  }

  lemma {:induction false} OwnerIsTable(mem: Memory, used: seq<bool>, tags: Tags, f: nat)
    requires Sound(mem, used, tags) && f in tags
    ensures tags[f].root in tags
    decreases |tags[f].path|
  {
    assert TagOk(used, tags, f) && Referred(mem, tags, f);
    if tags[f].path != [] { OwnerIsTable(mem, used, tags, tags[f].parent); }
  }

  function Poke(mem: Memory, f: nat, i: nat, word: nat): Memory
    requires f < |mem| && i < |mem[f]|
  {
    var frame: seq<nat> := mem[f][i := word];
    mem[f := frame]
  }

  function Blank(): (frame: seq<nat>)
    ensures |frame| == ENTRIES && forall i | 0 <= i < ENTRIES :: frame[i] == 0
  {
    seq(ENTRIES, _ => 0)
  }

  /** Physical memory, memory map and table ownership at one moment. */
  datatype Snap = Snap(mem: Memory, used: seq<bool>, tags: Tags)

  ghost predicate SameTranslations(s: Snap, s': Snap) {
    forall r: nat, p: nat {:trigger Governed(s.tags, r, p)} {:trigger Governed(s'.tags, r, p)}
      | Governed(s.tags, r, p) ::
      Governed(s'.tags, r, p) && Translate(s'.mem, r, p) == Translate(s.mem, r, p)
  }

  // ----- Writing a leaf word -----

  ghost predicate LeafSlot(mem: Memory, used: seq<bool>, tags: Tags, f: nat, i: nat) {
    Sound(mem, used, tags) && f in tags && |tags[f].path| == 3 && i in tags[f].slots && TagOk(used, tags, f)
  }

  ghost predicate LeafWord(used: seq<bool>, tags: Tags, word: nat) {
    var d := FrameOf(word);
    word == 0 || (FlagsOf(word) == 7 && d < |used| && used[d] && d !in tags)
  }

  lemma LeafWriteLeads(mem: Memory, used: seq<bool>, tags: Tags, f: nat, i: nat, word: nat, g: nat, j: nat)
    requires LeafSlot(mem, used, tags, f, i) && LeafWord(used, tags, word) && g in tags && j in tags[g].slots
    ensures Leads(Poke(mem, f, i, word), used, tags, g, j)
  {
    assert Leads(mem, used, tags, g, j);
  }

  lemma LeafWriteIsSound(mem: Memory, used: seq<bool>, tags: Tags, f: nat, i: nat, word: nat)
    requires LeafSlot(mem, used, tags, f, i) && LeafWord(used, tags, word)
    ensures Sound(Poke(mem, f, i, word), used, tags)
  {
    var mem' := Poke(mem, f, i, word);
    forall g | g in tags ensures Referred(mem', tags, g) {
      assert Referred(mem, tags, g) && TagOk(used, tags, g);
    }
    forall g, j | g in tags && j in tags[g].slots ensures Leads(mem', used, tags, g, j) {
      LeafWriteLeads(mem, used, tags, f, i, word, g, j);
    }
  }

  lemma LeafWriteMoves(mem: Memory, used: seq<bool>, tags: Tags, f: nat, i: nat, word: nat, r: nat, p: nat)
    requires LeafSlot(mem, used, tags, f, i) && Governed(tags, r, p)
    requires Sound(Poke(mem, f, i, word), used, tags)
    ensures Translate(Poke(mem, f, i, word), r, p) ==
            if r == tags[f].root && PathOf(p) == tags[f].path + [i] then word else Translate(mem, r, p)
  {
    var mem', path := Poke(mem, f, i, word), PathOf(p);
    if r == tags[f].root && path == tags[f].path + [i] {
      WalkPassesTable(mem', used, tags, f, [i]);
    } else {
      assert path[..4] == path;
      WriteElsewhere(mem, used, tags, mem', f, i, r, p);
    }
  }

  // ----- Linking an erased table -----

  ghost function Linked(tags: Tags, f: nat, i: nat, c: nat): Tags
    requires f in tags
  {
    var path := tags[f].path + [i];
    tags[c := Node(tags[f].root, path, f, AllSlots(path))]
  }

  function WithTable(mem: Memory, f: nat, i: nat, c: nat): Memory
    requires c < |mem| && c < FRAMES && f < |mem| && f != c && i < |mem[f]|
  {
    Poke(mem[c := Blank()], f, i, MakeEntry(c, FLAGS))
  }

  ghost predicate Linkable(mem: Memory, used: seq<bool>, tags: Tags, f: nat, i: nat, c: nat) {
    && Sound(mem, used, tags) && f in tags && |tags[f].path| < 3 && i in tags[f].slots
    && TagOk(used, tags, f) && i < ENTRIES && mem[f][i] == 0
    && c < |used| && !used[c]
  }

  lemma FreeIsNoTable(mem: Memory, used: seq<bool>, tags: Tags, c: nat)
    requires Sound(mem, used, tags) && c < |used| && !used[c]
    ensures c !in tags
  {
    assert c in tags ==> TagOk(used, tags, c);
  }

  lemma LinkIsSeparate(mem: Memory, used: seq<bool>, tags: Tags, f: nat, i: nat, c: nat, g: nat)
    requires Linkable(mem, used, tags, f, i, c) && g in tags
    ensures !(tags[g].root == tags[f].root && tags[g].path == tags[f].path + [i])
  {
    assert Referred(mem, tags, g);
    assert tags[g].parent in tags ==> Separate(tags, tags[g].parent, f);
  }

  lemma LinkSeparates(mem: Memory, used: seq<bool>, tags: Tags, f: nat, i: nat, c: nat, g: nat, h: nat)
    requires Linkable(mem, used, tags, f, i, c) && c !in tags && g in Linked(tags, f, i, c)
    requires h in Linked(tags, f, i, c)
    ensures Separate(Linked(tags, f, i, c), g, h)
  {
    if g != c { LinkIsSeparate(mem, used, tags, f, i, c, g); }
    if h != c { LinkIsSeparate(mem, used, tags, f, i, c, h); }
    if g != c && h != c { assert Separate(tags, g, h); }
  }

  lemma LinkTagOk(mem: Memory, used: seq<bool>, tags: Tags, f: nat, i: nat, c: nat, g: nat)
    requires Linkable(mem, used, tags, f, i, c) && c !in tags && g in Linked(tags, f, i, c)
    ensures TagOk(used[c := true], Linked(tags, f, i, c), g)
  {
    if g != c { assert TagOk(used, tags, g); }
  }

  lemma LinkIsReferred(mem: Memory, used: seq<bool>, tags: Tags, f: nat, i: nat, c: nat, g: nat)
    requires Linkable(mem, used, tags, f, i, c) && g in Linked(tags, f, i, c) && c !in tags
    ensures Referred(WithTable(mem, f, i, c), Linked(tags, f, i, c), g)
  {
    if g != c {
      assert Referred(mem, tags, g) && TagOk(used, tags, g);
    } else {
      assert (tags[f].path + [i])[..|tags[f].path|] == tags[f].path;
    }
  }

  lemma LinkLeads(mem: Memory, used: seq<bool>, tags: Tags, f: nat, i: nat, c: nat, g: nat, j: nat)
    requires Linkable(mem, used, tags, f, i, c) && c !in tags
    requires g in Linked(tags, f, i, c) && j in Linked(tags, f, i, c)[g].slots
    ensures Leads(WithTable(mem, f, i, c), used[c := true], Linked(tags, f, i, c), g, j)
  {
    if g != c { assert Leads(mem, used, tags, g, j); }
  }

  lemma LinkAllReferred(mem: Memory, used: seq<bool>, tags: Tags, f: nat, i: nat, c: nat, mem': Memory, tags': Tags)
    requires Linkable(mem, used, tags, f, i, c) && c !in tags
    requires mem' == WithTable(mem, f, i, c) && tags' == Linked(tags, f, i, c)
    ensures forall g {:trigger TagOk(used[c := true], tags', g)} | g in tags' :: TagOk(used[c := true], tags', g)
    ensures forall g {:trigger Referred(mem', tags', g)} | g in tags' :: Referred(mem', tags', g)
  {
    forall g | g in tags' ensures TagOk(used[c := true], tags', g) {
      LinkTagOk(mem, used, tags, f, i, c, g);
    }
    forall g | g in tags' ensures Referred(mem', tags', g) {
      LinkIsReferred(mem, used, tags, f, i, c, g);
    }
  }

  lemma LinkAllLead(mem: Memory, used: seq<bool>, tags: Tags, f: nat, i: nat, c: nat, mem': Memory, tags': Tags)
    requires Linkable(mem, used, tags, f, i, c) && c !in tags
    requires mem' == WithTable(mem, f, i, c) && tags' == Linked(tags, f, i, c)
    ensures forall g, h {:trigger Separate(tags', g, h)} | g in tags' && h in tags' :: Separate(tags', g, h)
    ensures forall g, j {:trigger Leads(mem', used[c := true], tags', g, j)} | g in tags' && j in tags'[g].slots ::
              Leads(mem', used[c := true], tags', g, j)
  {
    forall g, h | g in tags' && h in tags' ensures Separate(tags', g, h) {
      LinkSeparates(mem, used, tags, f, i, c, g, h);
    }
    forall g, j | g in tags' && j in tags'[g].slots ensures Leads(mem', used[c := true], tags', g, j) {
      LinkLeads(mem, used, tags, f, i, c, g, j);
    }
  }

  lemma LinkIsSound(mem: Memory, used: seq<bool>, tags: Tags, f: nat, i: nat, c: nat)
    requires Linkable(mem, used, tags, f, i, c)
    ensures Sound(WithTable(mem, f, i, c), used[c := true], Linked(tags, f, i, c))
  {
    FreeIsNoTable(mem, used, tags, c);
    var mem', tags' := WithTable(mem, f, i, c), Linked(tags, f, i, c);
    LinkAllReferred(mem, used, tags, f, i, c, mem', tags');
    LinkAllLead(mem, used, tags, f, i, c, mem', tags');
  }

  /** A walk through the new table ends at zero, as it did before. */
  lemma LinkReadsZero(mem: Memory, used: seq<bool>, tags: Tags, f: nat, i: nat, c: nat, path: seq<nat>)
    requires Linkable(mem, used, tags, f, i, c) && |path| == 4 && tags[f].path + [i] <= path && path[3] < ENTRIES
    ensures Walk(mem, tags[f].root, path) == 0 && Walk(WithTable(mem, f, i, c), tags[f].root, path) == 0
  {
    var mem', used', tags' := WithTable(mem, f, i, c), used[c := true], Linked(tags, f, i, c);
    var above := tags[f].path;
    var rest := path[|above|..];
    assert above + rest == path && rest[0] == i;
    FreeIsNoTable(mem, used, tags, c);
    WalkPassesTable(mem, used, tags, f, rest);
    LinkIsSound(mem, used, tags, f, i, c);
    WalkPassesTable(mem', used', tags', f, rest);
    assert Load(mem', f, i) == MakeEntry(c, FLAGS) && FrameOf(Load(mem', f, i)) == c;
    assert mem'[c] == Blank() && Load(mem', c, rest[1..][0]) == 0;
    assert Walk(mem', c, rest[1..]) == 0;
  }

  lemma LinkKeeps(mem: Memory, used: seq<bool>, tags: Tags, f: nat, i: nat, c: nat, r: nat, p: nat)
    requires Linkable(mem, used, tags, f, i, c) && Governed(tags, r, p)
    ensures Governed(Linked(tags, f, i, c), r, p)
    ensures Translate(WithTable(mem, f, i, c), r, p) == Translate(mem, r, p)
  {
    FreeIsNoTable(mem, used, tags, c);
    if r == tags[f].root && tags[f].path + [i] <= PathOf(p) {
      LinkReadsZero(mem, used, tags, f, i, c, PathOf(p));
    } else {
      WriteElsewhere(mem, used, tags, WithTable(mem, f, i, c), f, i, r, p);
    }
  }

  // ----- Unlinking a table that has become all zero -----

  ghost predicate Unlinkable(mem: Memory, used: seq<bool>, tags: Tags, f: nat) {
    && Sound(mem, used, tags) && f in tags && tags[f].path != []
    && TagOk(used, tags, f) && Referred(mem, tags, f)
    && forall i | 0 <= i < ENTRIES :: mem[f][i] == 0
  }

  ghost function Unlinked(mem: Memory, used: seq<bool>, tags: Tags, f: nat): Memory
    requires Unlinkable(mem, used, tags, f)
  {
    Poke(mem, tags[f].parent, tags[f].path[|tags[f].path| - 1], 0)
  }

  lemma SameChild(tags: Tags, f: nat, i: nat, g: nat, j: nat)
    requires f in tags && g in tags && Separate(tags, f, g)
    requires tags[f].root == tags[g].root && tags[f].path + [i] == tags[g].path + [j]
    ensures f == g && i == j
  {
    var p, q := tags[f].path + [i], tags[g].path + [j];
    assert p[..|p| - 1] == tags[f].path && q[..|q| - 1] == tags[g].path;
    assert p[|p| - 1] == i && q[|q| - 1] == j;
  }

  lemma UnlinkIsSound(mem: Memory, used: seq<bool>, tags: Tags, f: nat)
    requires Unlinkable(mem, used, tags, f)
    ensures Sound(Unlinked(mem, used, tags, f), used, tags - {f})
  {
    var mem', tags' := Unlinked(mem, used, tags, f), tags - {f};
    var up, i := tags[f].parent, tags[f].path[|tags[f].path| - 1];
    assert tags[f].path == tags[up].path + [i];
    forall g | g in tags' ensures TagOk(used, tags', g) && Referred(mem', tags', g) {
      assert TagOk(used, tags, g) && Referred(mem, tags, g) && Separate(tags, f, g);
    }
    forall g, h | g in tags' && h in tags' ensures Separate(tags', g, h) {
      assert Separate(tags, g, h);
    }
    forall g, j | g in tags' && j in tags'[g].slots ensures Leads(mem', used, tags', g, j) {
      assert Leads(mem, used, tags, g, j) && Separate(tags, g, up);
      if mem[g][j] != 0 && FrameOf(mem[g][j]) == f && |tags[g].path| < 3 {
        SameChild(tags, g, j, up, i);
      }
    }
  }

  /** A walk through the emptied table ends at zero, before and after. */
  lemma UnlinkReadsZero(mem: Memory, used: seq<bool>, tags: Tags, f: nat, path: seq<nat>)
    requires Unlinkable(mem, used, tags, f) && |path| == 4 && tags[f].path <= path && path[|tags[f].path|] < ENTRIES
    ensures Walk(mem, tags[f].root, path) == 0 && Walk(Unlinked(mem, used, tags, f), tags[f].root, path) == 0
  {
    var mem', n := Unlinked(mem, used, tags, f), |tags[f].path|;
    var up := tags[f].parent;
    assert tags[f].path + path[n..] == path && tags[up].path + path[n - 1..] == path;
    WalkPassesTable(mem, used, tags, f, path[n..]);
    assert path[n..][0] == path[n] && Load(mem, f, path[n]) == 0;
    UnlinkIsSound(mem, used, tags, f);
    assert up != f;
    WalkPassesTable(mem', used, tags - {f}, up, path[n - 1..]);
    assert path[n - 1..][0] == path[n - 1] == tags[f].path[n - 1] && Load(mem', up, path[n - 1]) == 0;
  }

  lemma UnlinkKeeps(mem: Memory, used: seq<bool>, tags: Tags, f: nat, r: nat, p: nat)
    requires Unlinkable(mem, used, tags, f) && Governed(tags, r, p)
    ensures Governed(tags - {f}, r, p)
    ensures Translate(Unlinked(mem, used, tags, f), r, p) == Translate(mem, r, p)
  {
    var path, n := PathOf(p), |tags[f].path|;
    assert tags[f].path == tags[tags[f].parent].path + [tags[f].path[n - 1]];
    assert tags[f].path != [] && r != f;
    if r == tags[f].root && tags[f].path <= path {
      UnlinkReadsZero(mem, used, tags, f, path);
    } else {
      WriteElsewhere(mem, used, tags, Unlinked(mem, used, tags, f), tags[f].parent, tags[f].path[n - 1], r, p);
    }
  }

  // ----- Whole operations -----

  ghost predicate HasWord(mem: Memory, f: nat) {
    f < |mem| && exists i | 0 <= i < |mem[f]| :: mem[f][i] != 0
  }

  ghost predicate Empty(s: Snap, f: nat) {
    f in s.tags && s.tags[f].path != [] && !HasWord(s.mem, f)
  }

  /** Every table below L4 that is all zero was there before and all zero, the table `but` excepted. */
  ghost predicate NoNewEmptyBut(s: Snap, s': Snap, but: nat) {
    forall f: nat {:trigger HasWord(s'.mem, f)} | Empty(s', f) && f != but :: Empty(s, f)
  }

  ghost predicate NoNewEmpty(s: Snap, s': Snap) {
    forall f: nat {:trigger HasWord(s'.mem, f)} | Empty(s', f) :: Empty(s, f)
  }

  ghost predicate NoEmptyTable(s: Snap) {
    forall f | f in s.tags && s.tags[f].path != [] :: HasWord(s.mem, f)
  }

  /** Only `table`, which has a word, and `but` may have changed. */
  lemma EmptyOnlyAt(s: Snap, s': Snap, table: nat, but: nat)
    requires |s'.mem| == |s.mem| && (table == but || HasWord(s'.mem, table))
    requires forall f: nat | f in s'.tags && f != table && f != but ::
               f in s.tags && s'.tags[f].path == s.tags[f].path && (f < |s.mem| ==> s'.mem[f] == s.mem[f])
    ensures NoNewEmptyBut(s, s', but) && (HasWord(s'.mem, but) ==> NoNewEmpty(s, s'))
  {
    forall f: nat | Empty(s', f) && f != but ensures Empty(s, f) {
      assert f != table;
      assert f < |s.mem| ==> s'.mem[f] == s.mem[f];
    }
  }

  lemma NoneLeft(s: Snap, s': Snap, but: nat)
    requires NoNewEmptyBut(s, s', but) && !Empty(s', but)
    ensures NoNewEmpty(s, s')
  {
    forall f: nat | Empty(s', f) ensures Empty(s, f) {
      assert f != but && !HasWord(s'.mem, f);
    }
  }

  lemma NoNewEmptyChains(s0: Snap, s1: Snap, s2: Snap)
    requires NoNewEmpty(s0, s1) && NoNewEmpty(s1, s2)
    ensures NoNewEmpty(s0, s2) && (NoEmptyTable(s0) ==> NoEmptyTable(s2))
  {
    forall f: nat | Empty(s2, f) ensures Empty(s0, f) {
      assert Empty(s1, f) && !HasWord(s1.mem, f);
    }
  }

  /** What every operation keeps: frames in use stay so, frames in use that are no tables keep their contents
      and never become tables, frames that stay free keep theirs, and tables are made only from free frames. */
  ghost predicate Evolves(s: Snap, s': Snap) {
    && |s'.mem| == |s.mem| && |s'.used| == |s.used|
    && (forall f | 0 <= f < |s.used| && s.used[f] :: s'.used[f])
    && (forall f | 0 <= f < |s.used| && f < |s.mem| && s.used[f] && f !in s.tags ::
        s'.mem[f] == s.mem[f] && f !in s'.tags)
    && (forall f | 0 <= f < |s.used| && f < |s.mem| && !s'.used[f] :: s'.mem[f] == s.mem[f])
    && (forall f | f in s'.tags && f !in s.tags && f < |s.used| :: !s.used[f])
    && (forall r | IsRoot(s.tags, r) :: IsRoot(s'.tags, r))
    && (forall r | Whole(s.tags, r) :: Whole(s'.tags, r))
  }

  lemma EvolvesTransitively(s0: Snap, s1: Snap, s2: Snap)
    requires Evolves(s0, s1) && Evolves(s1, s2)
    ensures Evolves(s0, s2)
  {}

  /** Pages outside `lo..hi` of `root` translate as before, in every process. */
  ghost predicate SameOutside(s: Snap, s': Snap, root: nat, lo: nat, hi: nat) {
    forall r: nat, p: nat {:trigger Governed(s.tags, r, p)} {:trigger Governed(s'.tags, r, p)}
      | Governed(s.tags, r, p) ::
      Governed(s'.tags, r, p) && (!(r == root && lo <= p < hi) ==> Translate(s'.mem, r, p) == Translate(s.mem, r, p))
  }

  /** Frame `d` is named by the leaf word of one page only. */
  ghost predicate NamedOnlyAt(mem: Memory, tags: Tags, d: nat, root: nat, page: nat) {
    forall f, i | f in tags && i in tags[f].slots && f < |mem| && i < |mem[f]| && mem[f][i] != 0
      && FrameOf(mem[f][i]) == d ::
      tags[f].root == root && tags[f].path + [i] == PathOf(page)
  }

  lemma MarkUsedIsSound(mem: Memory, used: seq<bool>, tags: Tags, d: nat)
    requires Sound(mem, used, tags) && d < |used|
    ensures Sound(mem, used[d := true], tags)
  {
    forall g | g in tags ensures TagOk(used[d := true], tags, g) { assert TagOk(used, tags, g); }
    forall g, j | g in tags && j in tags[g].slots ensures Leads(mem, used[d := true], tags, g, j) {
      assert Leads(mem, used, tags, g, j);
    }
  }

  /** A free frame that is given to a page is named nowhere else. */
  lemma FreshIsNamedOnce(mem: Memory, used: seq<bool>, tags: Tags, f: nat, i: nat, d: nat, page: nat)
    requires LeafSlot(mem, used, tags, f, i) && d < |used| && !used[d] && PathOf(page) == tags[f].path + [i]
    ensures NamedOnlyAt(Poke(mem, f, i, MakeEntry(d, FLAGS)), tags, d, tags[f].root, page)
  {
    forall g, j | g in tags && j in tags[g].slots ensures g < |mem| && j < |mem[g]|
      && (mem[g][j] == 0 || FrameOf(mem[g][j]) != d) {
      assert Leads(mem, used, tags, g, j);
    }
  }

  /** The page was given a frame that was free, and no other page has it. */
  ghost predicate FreshlyMapped(was: seq<bool>, mem: Memory, used: seq<bool>, tags: Tags, root: nat, page: nat) {
    var word := Translate(mem, root, page);
    var d := FrameOf(word);
    && word == d * 4096 + 7
    && d < |was| && !was[d] && d < |used| && used[d] && d !in tags && NamedOnlyAt(mem, tags, d, root, page)
  }

  /** What mapping a page gives it: the frame it had, or a fresh one at physical address `phys`. */
  ghost predicate GivesPage(s: Snap, s': Snap, root: nat, page: nat, phys: nat) {
    var was, now := Translate(s.mem, root, page), Translate(s'.mem, root, page);
    if was != 0 then now == was
    else FreshlyMapped(s.used, s'.mem, s'.used, s'.tags, root, page) && phys == FrameOf(now) * 4096
  }

  /** Every word on the way allows the user to read and write: present, writable, user. */
  ghost predicate Permitted(mem: Memory, f: nat, path: seq<nat>)
    requires path != []
    decreases |path|
  {
    var word := Load(mem, f, path[0]);
    FlagsOf(word) == 7 && (|path| > 1 ==> Permitted(mem, FrameOf(word), path[1..]))
  }

  /** In a sound memory every mapped page of every process is accessible to its user at all four levels. */
  lemma MappedIsPermitted(s: Snap, r: nat, p: nat)
    requires Sound(s.mem, s.used, s.tags) && Governed(s.tags, r, p) && Translate(s.mem, r, p) != 0
    ensures Permitted(s.mem, r, PathOf(p))
  {
    var path := PathOf(p);
    assert path[0..] == path && path[..0] == [] && TagOk(s.used, s.tags, r);
    WalkIsPermitted(s, r, path, 0);
  }

  lemma {:induction false} WalkIsPermitted(s: Snap, f: nat, path: seq<nat>, k: nat)
    requires Sound(s.mem, s.used, s.tags) && f in s.tags && k < 4 && OwnPath(s.tags, s.tags[f].root, path)
    requires s.tags[f].path == path[..k] && Walk(s.mem, f, path[k..]) != 0
    ensures Permitted(s.mem, f, path[k..])
    decreases 4 - k
  {
    var i := path[k];
    assert path[k..][0] == i && Leads(s.mem, s.used, s.tags, f, i);
    if k < 3 {
      assert path[k..][1..] == path[k + 1..] && path[..k + 1] == path[..k] + [i];
      WalkIsPermitted(s, FrameOf(s.mem[f][i]), path, k + 1);
    }
  }

  /** The step from a table on the way to a page to the next one; a zero word means the page is not mapped. */
  lemma StepDown(mem: Memory, used: seq<bool>, tags: Tags, f: nat, page: nat)
    requires Sound(mem, used, tags) && f in tags && |tags[f].path| < 4 && Governed(tags, tags[f].root, page)
    requires tags[f].path == PathOf(page)[..|tags[f].path|]
    ensures var k := |tags[f].path|;
            var i := PathOf(page)[k];
            && i in tags[f].slots && f < |mem| && i < |mem[f]|
            && (mem[f][i] == 0 ==> Translate(mem, tags[f].root, page) == 0)
            && (k == 3 ==> Translate(mem, tags[f].root, page) == mem[f][i])
            && (k < 3 && mem[f][i] != 0 ==>
                  var c := FrameOf(mem[f][i]);
                  c in tags && tags[c].root == tags[f].root && tags[c].path == PathOf(page)[..k + 1])
  {
    var path, k := PathOf(page), |tags[f].path|;
    var i := path[k];
    assert TagOk(used, tags, f) && Leads(mem, used, tags, f, i);
    assert path[..k + 1] == path[..k] + [i] && path[..k] + path[k..] == path;
    WalkPassesTable(mem, used, tags, f, path[k..]);
  }
}
