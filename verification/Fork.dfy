/** `clone_cr3` and the child-stack remap of `sys_fork` (core/syscall/syscall2.h). The copy does not erase
    the tables it makes, so words it does not write keep whatever the frame held before. */
module Fork {
  import opened PageTables
  import opened AddressSpaces

  /** From each table of the child to the table of the parent it copies. */
  type Origin = map<nat, nat>

  ghost function Present(mem: Memory, g: nat, path: seq<nat>, n: nat): set<nat> {
    set i | i in AllSlots(path) && i < n && Load(mem, g, i) != 0
  }

  /** The child's table repeats the words of its original: the same flags, and frames that correspond. */
  ghost predicate Repeats(mem: Memory, tags: Tags, orig: Origin, parent: nat, h: nat)
    requires h in orig && h in tags
  {
    var g := orig[h];
    && g in tags && tags[g].root == parent && tags[g].path == tags[h].path && |tags[h].path| <= 3
    && forall i | i in tags[h].slots ::
         if |tags[h].path| == 3 then Load(mem, h, i) == Load(mem, g, i)
         else
           var c := FrameOf(Load(mem, h, i));
           && Load(mem, h, i) != 0 && Load(mem, g, i) != 0 && FlagsOf(Load(mem, h, i)) == FlagsOf(Load(mem, g, i))
           && c in orig && orig[c] == FrameOf(Load(mem, g, i))
  }

  /** Nothing of the original is missing. */
  ghost predicate Complete(mem: Memory, tags: Tags, orig: Origin, h: nat)
    requires h in orig && h in tags
  {
    tags[h].slots ==
    if |tags[h].path| == 3 then AllSlots(tags[h].path) else Present(mem, orig[h], tags[h].path, ENTRIES)
  }

  ghost predicate Cloning(s: Snap, orig: Origin, parent: nat, child: nat) {
    && Sound(s.mem, s.used, s.tags) && parent != child && Whole(s.tags, parent) && IsRoot(s.tags, child)
    && (forall h {:trigger h in orig} :: h in orig <==> h in s.tags && s.tags[h].root == child)
    && (forall h {:trigger Repeats(s.mem, s.tags, orig, parent, h)} | h in orig ::
        Repeats(s.mem, s.tags, orig, parent, h))
  }

  // ----- One word copied: a fresh, unerased table is hung on the child's table -----

  ghost function CopyLinked(tags: Tags, h: nat, i: nat, c: nat): Tags
    requires h in tags
  {
    var n := tags[h];
    tags[h := n.(slots := n.slots + {i})][c := Node(n.root, n.path + [i], h, {})]
  }

  ghost predicate CopyStep(s: Snap, orig: Origin, parent: nat, child: nat, h: nat, i: nat, c: nat) {
    && Cloning(s, orig, parent, child) && h in orig && |s.tags[h].path| < 3
    && i in AllSlots(s.tags[h].path) && i !in s.tags[h].slots && TagOk(s.used, s.tags, h)
    && Load(s.mem, orig[h], i) != 0
    && 0 < c < |s.used| && !s.used[c] && c !in s.tags
  }

  ghost function AfterCopy(s: Snap, orig: Origin, h: nat, i: nat, c: nat): Snap
    requires h in s.tags && h in orig && h < |s.mem| && i < |s.mem[h]| && c < |s.used| && c < FRAMES
  {
    var word := MakeEntry(c, FlagsOf(Load(s.mem, orig[h], i)));
    Snap(Poke(s.mem, h, i, word), s.used[c := true], CopyLinked(s.tags, h, i, c))
  }

  lemma CopyTagOk(s: Snap, orig: Origin, parent: nat, child: nat, h: nat, i: nat, c: nat, g: nat)
    requires CopyStep(s, orig, parent, child, h, i, c) && g in CopyLinked(s.tags, h, i, c)
    ensures TagOk(s.used[c := true], CopyLinked(s.tags, h, i, c), g)
  {
    if g != c { assert TagOk(s.used, s.tags, g); }
  }

  lemma CopyReferred(s: Snap, orig: Origin, parent: nat, child: nat, h: nat, i: nat, c: nat, g: nat)
    requires CopyStep(s, orig, parent, child, h, i, c) && g in CopyLinked(s.tags, h, i, c)
    ensures Referred(AfterCopy(s, orig, h, i, c).mem, CopyLinked(s.tags, h, i, c), g)
  {
    if g != c {
      assert Referred(s.mem, s.tags, g) && TagOk(s.used, s.tags, g);
    } else {
      assert (s.tags[h].path + [i])[..|s.tags[h].path|] == s.tags[h].path;
    }
  }

  lemma CopySeparate(s: Snap, orig: Origin, parent: nat, child: nat, h: nat, i: nat, c: nat, g: nat, g': nat)
    requires CopyStep(s, orig, parent, child, h, i, c) && g in CopyLinked(s.tags, h, i, c)
    requires g' in CopyLinked(s.tags, h, i, c)
    ensures Separate(CopyLinked(s.tags, h, i, c), g, g')
  {
    if g != c {
      assert Referred(s.mem, s.tags, g);
      assert s.tags[g].parent in s.tags ==> Separate(s.tags, s.tags[g].parent, h);
    }
    if g' != c {
      assert Referred(s.mem, s.tags, g');
      assert s.tags[g'].parent in s.tags ==> Separate(s.tags, s.tags[g'].parent, h);
    }
    if g != c && g' != c { assert Separate(s.tags, g, g'); }
  }

  lemma CopyLeads(s: Snap, orig: Origin, parent: nat, child: nat, h: nat, i: nat, c: nat, g: nat, j: nat)
    requires CopyStep(s, orig, parent, child, h, i, c)
    requires g in CopyLinked(s.tags, h, i, c) && j in CopyLinked(s.tags, h, i, c)[g].slots
    ensures Leads(AfterCopy(s, orig, h, i, c).mem, s.used[c := true], CopyLinked(s.tags, h, i, c), g, j)
  {
    var o := orig[h];
    assert Repeats(s.mem, s.tags, orig, parent, h) && TagOk(s.used, s.tags, o) && Leads(s.mem, s.used, s.tags, o, i);
    if g != h || j != i { assert Leads(s.mem, s.used, s.tags, g, j); }
  }

  lemma CopyIsSound(s: Snap, orig: Origin, parent: nat, child: nat, h: nat, i: nat, c: nat)
    requires CopyStep(s, orig, parent, child, h, i, c)
    ensures var s' := AfterCopy(s, orig, h, i, c); Sound(s'.mem, s'.used, s'.tags)
  {
    var s' := AfterCopy(s, orig, h, i, c);
    forall g | g in s'.tags ensures TagOk(s'.used, s'.tags, g) {
      CopyTagOk(s, orig, parent, child, h, i, c, g);
    }
    forall g | g in s'.tags ensures Referred(s'.mem, s'.tags, g) {
      CopyReferred(s, orig, parent, child, h, i, c, g);
    }
    forall g, g' | g in s'.tags && g' in s'.tags ensures Separate(s'.tags, g, g') {
      CopySeparate(s, orig, parent, child, h, i, c, g, g');
    }
    forall g, j | g in s'.tags && j in s'.tags[g].slots ensures Leads(s'.mem, s'.used, s'.tags, g, j) {
      CopyLeads(s, orig, parent, child, h, i, c, g, j);
    }
  }

  lemma CopyRepeats(s: Snap, orig: Origin, parent: nat, child: nat, h: nat, i: nat, c: nat, k: nat)
    requires CopyStep(s, orig, parent, child, h, i, c) && (k in orig || k == c)
    ensures var s' := AfterCopy(s, orig, h, i, c);
            Repeats(s'.mem, s'.tags, orig[c := FrameOf(Load(s.mem, orig[h], i))], parent, k)
  {
    var g := orig[h];
    assert Repeats(s.mem, s.tags, orig, parent, h) && TagOk(s.used, s.tags, g) && Leads(s.mem, s.used, s.tags, g, i);
    if k in orig { assert Repeats(s.mem, s.tags, orig, parent, k); }
  }

  lemma CopyKeepsCloning(s: Snap, orig: Origin, parent: nat, child: nat, h: nat, i: nat, c: nat)
    requires CopyStep(s, orig, parent, child, h, i, c)
    ensures Cloning(AfterCopy(s, orig, h, i, c), orig[c := FrameOf(Load(s.mem, orig[h], i))], parent, child)
  {
    var s', orig' := AfterCopy(s, orig, h, i, c), orig[c := FrameOf(Load(s.mem, orig[h], i))];
    CopyIsSound(s, orig, parent, child, h, i, c);
    forall k | k in orig' ensures Repeats(s'.mem, s'.tags, orig', parent, k) {
      CopyRepeats(s, orig, parent, child, h, i, c, k);
    }
  }

  // ----- An L1 table copied whole -----

  ghost predicate LeafStep(s: Snap, orig: Origin, parent: nat, child: nat, h: nat) {
    && Cloning(s, orig, parent, child) && h in orig && |s.tags[h].path| == 3 && s.tags[h].slots == {}
    && TagOk(s.used, s.tags, h) && orig[h] in s.tags && TagOk(s.used, s.tags, orig[h])
  }

  ghost function AfterLeafCopy(s: Snap, orig: Origin, h: nat): Snap
    requires h in s.tags && h in orig && h < |s.mem| && orig[h] < |s.mem|
  {
    Snap(s.mem[h := s.mem[orig[h]]], s.used, s.tags[h := s.tags[h].(slots := AllSlots(s.tags[h].path))])
  }

  lemma LeafCopyLeads(s: Snap, orig: Origin, parent: nat, child: nat, h: nat, s': Snap, f: nat, j: nat)
    requires LeafStep(s, orig, parent, child, h) && s' == AfterLeafCopy(s, orig, h)
    requires f in s'.tags && j in s'.tags[f].slots
    ensures Leads(s'.mem, s'.used, s'.tags, f, j)
  {
    assert Repeats(s.mem, s.tags, orig, parent, h);
    assert Leads(s.mem, s.used, s.tags, if f == h then orig[h] else f, j);
  }

  lemma LeafCopyIsSound(s: Snap, orig: Origin, parent: nat, child: nat, h: nat)
    requires LeafStep(s, orig, parent, child, h)
    ensures var s' := AfterLeafCopy(s, orig, h); Sound(s'.mem, s'.used, s'.tags)
  {
    var s' := AfterLeafCopy(s, orig, h);
    forall f | f in s'.tags ensures TagOk(s'.used, s'.tags, f) && Referred(s'.mem, s'.tags, f) {
      assert TagOk(s.used, s.tags, f) && Referred(s.mem, s.tags, f);
    }
    forall f, f' | f in s'.tags && f' in s'.tags ensures Separate(s'.tags, f, f') {
      assert Separate(s.tags, f, f');
    }
    forall f, j | f in s'.tags && j in s'.tags[f].slots ensures Leads(s'.mem, s'.used, s'.tags, f, j) {
      LeafCopyLeads(s, orig, parent, child, h, s', f, j);
    }
  }

  lemma LeafCopyKeepsCloning(s: Snap, orig: Origin, parent: nat, child: nat, h: nat)
    requires LeafStep(s, orig, parent, child, h)
    ensures Cloning(AfterLeafCopy(s, orig, h), orig, parent, child)
  {
    var s' := AfterLeafCopy(s, orig, h);
    LeafCopyIsSound(s, orig, parent, child, h);
    forall k | k in orig ensures Repeats(s'.mem, s'.tags, orig, parent, k) {
      assert Repeats(s.mem, s.tags, orig, parent, k);
    }
  }

  // ----- What cloning a subtree into table `h` does -----

  ghost predicate SameTable(s0: Snap, s: Snap, f: nat) {
    f in s0.tags && f in s.tags && s.tags[f] == s0.tags[f] && f < |s0.mem| && f < |s.mem| && s.mem[f] == s0.mem[f]
  }

  /** The words a copy did not write are what they were. */
  ghost predicate Leftover(s0: Snap, s: Snap, f: nat) {
    && f in s.tags && f < |s0.mem| && f < |s.mem| && |s0.mem[f]| == |s.mem[f]|
    && forall j | 0 <= j < |s.mem[f]| && j !in s.tags[f].slots :: s.mem[f][j] == s0.mem[f][j]
  }

  ghost predicate OthersSame(s0: Snap, s: Snap, h: nat) {
    forall f {:trigger SameTable(s0, s, f)} | f in s0.tags && f != h :: SameTable(s0, s, f)
  }

  ghost predicate NewOnes(s0: Snap, s: Snap, child: nat) {
    forall f {:trigger Leftover(s0, s, f)} | f in s.tags && f !in s0.tags ::
        s.tags[f].root == child && Leftover(s0, s, f)
  }

  ghost predicate FreeSame(s0: Snap, s: Snap) {
    && |s.used| == |s.mem| == |s0.mem|
    && forall f | 0 <= f < |s.used| && !s.used[f] :: s.mem[f] == s0.mem[f]
  }

  ghost predicate AllComplete(s: Snap, o: Origin, o0: Origin) {
    forall k {:trigger Complete(s.mem, s.tags, o, k)} | k in o && k !in o0 ::
        k in s.tags && Complete(s.mem, s.tags, o, k)
  }

  ghost predicate OriginGrows(o0: Origin, o: Origin) {
    forall k | k in o0 :: k in o && o[k] == o0[k]
  }

  ghost predicate Progress(s0: Snap, o0: Origin, s: Snap, o: Origin, parent: nat, child: nat, h: nat) {
    && Cloning(s, o, parent, child) && Evolves(s0, s) && h in o0 && h in s0.tags
    && h in s.tags && s.tags[h].root == s0.tags[h].root && s.tags[h].path == s0.tags[h].path && Leftover(s0, s, h)
    && OthersSame(s0, s, h) && NewOnes(s0, s, child) && FreeSame(s0, s) && OriginGrows(o0, o) && AllComplete(s, o, o0)
  }

  lemma CopyEvolves(s: Snap, orig: Origin, parent: nat, child: nat, h: nat, i: nat, c: nat)
    requires CopyStep(s, orig, parent, child, h, i, c)
    ensures Evolves(s, AfterCopy(s, orig, h, i, c))
  {
    var s' := AfterCopy(s, orig, h, i, c);
    forall r | Whole(s.tags, r) ensures Whole(s'.tags, r) {
      assert r != child;
    }
  }

  /** One word of `h` and everything below it. */
  ghost predicate WordCopied(s1: Snap, o1: Origin, s2: Snap, o2: Origin, s3: Snap, o3: Origin,
                             parent: nat, child: nat, h: nat, i: nat, c: nat) {
    && CopyStep(s1, o1, parent, child, h, i, c)
    && s2 == AfterCopy(s1, o1, h, i, c) && o2 == o1[c := FrameOf(Load(s1.mem, o1[h], i))]
    && Progress(s2, o2, s3, o3, parent, child, c) && c in o3 && Complete(s3.mem, s3.tags, o3, c)
  }

  lemma TableUntouched(s1: Snap, o1: Origin, s2: Snap, o2: Origin, s3: Snap, o3: Origin,
                       parent: nat, child: nat, h: nat, i: nat, c: nat, f: nat)
    requires WordCopied(s1, o1, s2, o2, s3, o3, parent, child, h, i, c) && f in s1.tags && f != h
    ensures SameTable(s1, s3, f)
  {
    assert TagOk(s1.used, s1.tags, f) && SameTable(s2, s3, f);
  }

  lemma StillComplete(s1: Snap, o1: Origin, s2: Snap, o2: Origin, s3: Snap, o3: Origin,
                      parent: nat, child: nat, h: nat, i: nat, c: nat, k: nat)
    requires WordCopied(s1, o1, s2, o2, s3, o3, parent, child, h, i, c)
    requires k in o1 && k != h && Complete(s1.mem, s1.tags, o1, k)
    ensures k in o3 && k in s3.tags && Complete(s3.mem, s3.tags, o3, k)
  {
    assert Repeats(s1.mem, s1.tags, o1, parent, k) && k in o2;
    TableUntouched(s1, o1, s2, o2, s3, o3, parent, child, h, i, c, k);
    TableUntouched(s1, o1, s2, o2, s3, o3, parent, child, h, i, c, o1[k]);
    assert Present(s1.mem, o1[k], s1.tags[k].path, ENTRIES) == Present(s3.mem, o3[k], s3.tags[k].path, ENTRIES);
  }

  lemma WordAt(s1: Snap, o1: Origin, s2: Snap, o2: Origin, s3: Snap, o3: Origin,
               parent: nat, child: nat, h: nat, i: nat, c: nat, s0: Snap)
    requires WordCopied(s1, o1, s2, o2, s3, o3, parent, child, h, i, c) && Leftover(s0, s1, h)
    ensures h in s3.tags && s3.tags[h] == s1.tags[h].(slots := s1.tags[h].slots + {i}) && Leftover(s0, s3, h)
  {
    assert SameTable(s2, s3, h);
  }

  lemma NewTable(s0: Snap, o0: Origin, s1: Snap, o1: Origin, s2: Snap, o2: Origin, s3: Snap, o3: Origin,
                 parent: nat, child: nat, h: nat, i: nat, c: nat, f: nat)
    requires Progress(s0, o0, s1, o1, parent, child, h)
    requires WordCopied(s1, o1, s2, o2, s3, o3, parent, child, h, i, c)
    requires f in s3.tags && f !in s0.tags
    ensures s3.tags[f].root == child && Leftover(s0, s3, f)
  {
    assert TagOk(s3.used, s3.tags, f);
    if f in s1.tags {
      TableUntouched(s1, o1, s2, o2, s3, o3, parent, child, h, i, c, f);
      assert Leftover(s0, s1, f);
    } else if f == c {
      assert Leftover(s2, s3, c);
    } else {
      assert Leftover(s2, s3, f);
    }
  }

  lemma OthersStaySame(s0: Snap, o0: Origin, s1: Snap, o1: Origin, s2: Snap, o2: Origin, s3: Snap, o3: Origin,
                       parent: nat, child: nat, h: nat, i: nat, c: nat)
    requires Progress(s0, o0, s1, o1, parent, child, h)
    requires WordCopied(s1, o1, s2, o2, s3, o3, parent, child, h, i, c)
    ensures OthersSame(s0, s3, h) && NewOnes(s0, s3, child) && FreeSame(s0, s3)
  {
    forall f | f in s0.tags && f != h ensures SameTable(s0, s3, f) {
      assert SameTable(s0, s1, f);
      TableUntouched(s1, o1, s2, o2, s3, o3, parent, child, h, i, c, f);
    }
    forall f | f in s3.tags && f !in s0.tags ensures s3.tags[f].root == child && Leftover(s0, s3, f) {
      NewTable(s0, o0, s1, o1, s2, o2, s3, o3, parent, child, h, i, c, f);
    }
  }

  lemma CopiesStayComplete(s0: Snap, o0: Origin, s1: Snap, o1: Origin, s2: Snap, o2: Origin, s3: Snap, o3: Origin,
                           parent: nat, child: nat, h: nat, i: nat, c: nat)
    requires Progress(s0, o0, s1, o1, parent, child, h)
    requires WordCopied(s1, o1, s2, o2, s3, o3, parent, child, h, i, c)
    ensures AllComplete(s3, o3, o0)
  {
    forall k | k in o3 && k !in o0 ensures k in s3.tags && Complete(s3.mem, s3.tags, o3, k) {
      if k in o1 {
        assert Complete(s1.mem, s1.tags, o1, k);
        StillComplete(s1, o1, s2, o2, s3, o3, parent, child, h, i, c, k);
      }
    }
  }

  lemma ProgressGrows(s0: Snap, o0: Origin, s1: Snap, o1: Origin, s2: Snap, o2: Origin, s3: Snap, o3: Origin,
                      parent: nat, child: nat, h: nat, i: nat, c: nat)
    requires Progress(s0, o0, s1, o1, parent, child, h)
    requires WordCopied(s1, o1, s2, o2, s3, o3, parent, child, h, i, c)
    ensures Progress(s0, o0, s3, o3, parent, child, h)
    ensures s3.tags[h].slots == s1.tags[h].slots + {i}
  {
    CopyEvolves(s1, o1, parent, child, h, i, c);
    EvolvesTransitively(s0, s1, s2);
    EvolvesTransitively(s0, s2, s3);
    WordAt(s1, o1, s2, o2, s3, o3, parent, child, h, i, c, s0);
    OthersStaySame(s0, o0, s1, o1, s2, o2, s3, o3, parent, child, h, i, c);
    CopiesStayComplete(s0, o0, s1, o1, s2, o2, s3, o3, parent, child, h, i, c);
  }

  lemma LeafCopyProgress(s: Snap, orig: Origin, parent: nat, child: nat, h: nat)
    requires LeafStep(s, orig, parent, child, h)
    ensures var s' := AfterLeafCopy(s, orig, h);
            Progress(s, orig, s', orig, parent, child, h) && Complete(s'.mem, s'.tags, orig, h)
  {
    var s' := AfterLeafCopy(s, orig, h);
    LeafCopyKeepsCloning(s, orig, parent, child, h);
    forall r | Whole(s.tags, r) ensures Whole(s'.tags, r) {
      assert r != child by { assert 0 in AllSlots(s.tags[h].path); }
    }
    forall f | f in s.tags ensures f < |s.mem| {
      assert TagOk(s.used, s.tags, f);
    }
  }

  lemma ProgressStarts(s: Snap, o: Origin, parent: nat, child: nat, h: nat)
    requires Cloning(s, o, parent, child) && h in o
    ensures Progress(s, o, s, o, parent, child, h)
  {
    forall f | f in s.tags ensures f < |s.mem| {
      assert TagOk(s.used, s.tags, f);
    }
  }

  /** A free frame can be hung into the child's table. */
  lemma CopyReady(s0: Snap, o0: Origin, s1: Snap, o1: Origin, parent: nat, child: nat, h: nat, i: nat, c: nat)
    requires Progress(s0, o0, s1, o1, parent, child, h) && h in o1 && |s1.tags[h].path| < 3
    requires i in AllSlots(s1.tags[h].path) && i !in s1.tags[h].slots && Load(s1.mem, o1[h], i) != 0
    requires 0 < c < |s1.used| && !s1.used[c]
    ensures CopyStep(s1, o1, parent, child, h, i, c) && h < |s1.mem| && i < |s1.mem[h]| && c < FRAMES
    ensures Cloning(AfterCopy(s1, o1, h, i, c), o1[c := FrameOf(Load(s1.mem, o1[h], i))], parent, child)
    ensures c !in s1.tags && |AfterCopy(s1, o1, h, i, c).tags[c].path| == |s1.tags[h].path| + 1
  {
    assert TagOk(s1.used, s1.tags, h);
    FreeIsNoTable(s1.mem, s1.used, s1.tags, c);
    CopyKeepsCloning(s1, o1, parent, child, h, i, c);
  }

  /** Copy word `i` of table `g` into `h`: a fresh table, and below it everything the original holds. */
  method CopyWord(ram: PhysicalMemory, g: nat, h: nat, i: nat, level: nat,
                  ghost s0: Snap, ghost o0: Origin, ghost o1: Origin, ghost parent: nat, ghost child: nat)
    returns (ok: bool, ghost o: Origin)
    requires ram.Valid() && 2 <= level <= 4 && Progress(s0, o0, ram.Now(), o1, parent, child, h)
    requires h in o1 && o1[h] == g && |ram.tags[h].path| == 4 - level
    requires i in AllSlots(ram.tags[h].path) && i !in ram.tags[h].slots && Load(ram.mem, g, i) != 0
    modifies ram`mem, ram`used, ram`tags
    ensures !ok ==> ram.Exhausted()
    ensures ok ==> ram.Valid() && Progress(s0, o0, ram.Now(), o, parent, child, h)
    ensures ok ==> ram.tags[h].slots == old(ram.tags[h].slots) + {i}
    decreases level, 0
  {
    ghost var s1 := ram.Now();
    o := o1;
    assert Repeats(ram.mem, ram.tags, o1, parent, h) && TagOk(ram.used, ram.tags, g);
    var c;
    ok, c := ram.GetFreeBlock();
    if !ok { return; }
    CopyReady(s0, o0, s1, o1, parent, child, h, i, c);
    var word := ram.mem[g][i];
    ram.mem := Poke(ram.mem, h, i, MakeEntry(c, FlagsOf(word)));
    ram.tags := CopyLinked(ram.tags, h, i, c);
    ghost var s2, o2 := ram.Now(), o1[c := FrameOf(word)];
    assert s2 == AfterCopy(s1, o1, h, i, c);
    ok, o := CloneBelow(ram, FrameOf(word), c, level - 1, parent, child, o2);
    if !ok { return; }
    ProgressGrows(s0, o0, s1, o1, s2, o2, ram.Now(), o, parent, child, h, i, c);
  }

  /** The nested loops of `clone_cr3`, one call for each level: an L1 table is copied whole, a table above
      it word by word. */
  method CloneBelow(ram: PhysicalMemory, g: nat, h: nat, level: nat,
                    ghost parent: nat, ghost child: nat, ghost o0: Origin) returns (ok: bool, ghost o: Origin)
    requires ram.Valid() && 1 <= level <= 4 && Cloning(ram.Now(), o0, parent, child)
    requires h in o0 && o0[h] == g && ram.tags[h].slots == {} && |ram.tags[h].path| == 4 - level
    modifies ram`mem, ram`used, ram`tags
    ensures !ok ==> ram.Exhausted()
    ensures ok ==> ram.Valid() && Progress(old(ram.Now()), o0, ram.Now(), o, parent, child, h)
    ensures ok ==> h in o && h in ram.tags && Complete(ram.mem, ram.tags, o, h)
    decreases level, 3
  {
    if level == 1 {
      ghost var s0 := ram.Now();
      assert TagOk(ram.used, ram.tags, h) && Repeats(ram.mem, ram.tags, o0, parent, h) && TagOk(ram.used, ram.tags, g);
      LeafCopyProgress(s0, o0, parent, child, h);
      ram.mem := ram.mem[h := ram.mem[g]];
      ram.tags := ram.tags[h := ram.tags[h].(slots := AllSlots(ram.tags[h].path))];
      return true, o0;
    }
    ok, o := CopyWords(ram, g, h, level, parent, child, o0);
  }

  method CopyNext(ram: PhysicalMemory, g: nat, h: nat, i: nat, level: nat,
                  ghost s0: Snap, ghost o0: Origin, ghost o1: Origin, ghost parent: nat, ghost child: nat)
    returns (ok: bool, ghost o: Origin)
    requires ram.Valid() && 2 <= level <= 4 && CopiedUpTo(s0, o0, ram.Now(), o1, parent, child, h, g, i)
    requires |s0.tags[h].path| == 4 - level && i < ENTRIES && IsSlot(s0.tags[h].path, i)
    modifies ram`mem, ram`used, ram`tags
    ensures !ok ==> ram.Exhausted()
    ensures ok ==> ram.Valid() && CopiedUpTo(s0, o0, ram.Now(), o, parent, child, h, g, i + 1)
    decreases level, 1
  {
    ok, o := true, o1;
    PresentNext(s0.mem, g, s0.tags[h].path, i);
    if ram.mem[g][i] != 0 {
      ok, o := CopyWord(ram, g, h, i, level, s0, o0, o1, parent, child);
      if !ok { return; }
      assert SameTable(s0, ram.Now(), g);
    }
  }

  method CopyWords(ram: PhysicalMemory, g: nat, h: nat, level: nat,
                   ghost parent: nat, ghost child: nat, ghost o0: Origin) returns (ok: bool, ghost o: Origin)
    requires ram.Valid() && 2 <= level <= 4 && Cloning(ram.Now(), o0, parent, child)
    requires h in o0 && o0[h] == g && ram.tags[h].slots == {} && |ram.tags[h].path| == 4 - level
    modifies ram`mem, ram`used, ram`tags
    ensures !ok ==> ram.Exhausted()
    ensures ok ==> ram.Valid() && Progress(old(ram.Now()), o0, ram.Now(), o, parent, child, h)
    ensures ok ==> h in o && h in ram.tags && Complete(ram.mem, ram.tags, o, h)
    decreases level, 2
  {
    ghost var s0 := ram.Now();
    o := o0;
    assert TagOk(ram.used, ram.tags, h) && Repeats(ram.mem, ram.tags, o0, parent, h) && TagOk(ram.used, ram.tags, g);
    ProgressStarts(s0, o0, parent, child, h);
    var width := if level == 4 then LOW_L4 else ENTRIES;
    for i := 0 to width
      invariant ram.Valid() && CopiedUpTo(s0, o0, ram.Now(), o, parent, child, h, g, i)
    {
      ok, o := CopyNext(ram, g, h, i, level, s0, o0, o, parent, child);
      if !ok { return; }
    }
    CopiedAll(s0, o0, ram.Now(), o, parent, child, h, g, width);
    ok := true;
  }

  /** The words of `g` before `i` have their copies below `h`. */
  ghost predicate CopiedUpTo(s0: Snap, o0: Origin, s: Snap, o: Origin, parent: nat, child: nat, h: nat, g: nat,
                             i: nat) {
    && Progress(s0, o0, s, o, parent, child, h) && h in o && o[h] == g && g != h
    && g in s0.tags && SameTable(s0, s, g) && |s.mem[g]| == ENTRIES
    && s.tags[h].slots == Present(s0.mem, g, s0.tags[h].path, i)
  }

  lemma PresentNext(mem: Memory, g: nat, path: seq<nat>, i: nat)
    requires i < ENTRIES && IsSlot(path, i)
    ensures Present(mem, g, path, i + 1) == Present(mem, g, path, i) + if Load(mem, g, i) != 0 then {i} else {}
  {}

  lemma CopiedAll(s0: Snap, o0: Origin, s: Snap, o: Origin, parent: nat, child: nat, h: nat, g: nat, width: nat)
    requires CopiedUpTo(s0, o0, s, o, parent, child, h, g, width) && |s0.tags[h].path| < 3
    requires width == if s0.tags[h].path == [] then LOW_L4 else ENTRIES
    ensures Complete(s.mem, s.tags, o, h)
  {
    assert Present(s0.mem, g, s0.tags[h].path, width) == Present(s.mem, g, s.tags[h].path, ENTRIES);
  }

  // ----- The child's tree against the parent's -----

  /** A walk finds a table at every level; its last word may be zero. */
  ghost predicate Reaches(mem: Memory, f: nat, path: seq<nat>)
    requires path != []
    decreases |path|
  {
    |path| == 1 || (Load(mem, f, path[0]) != 0 && Reaches(mem, FrameOf(Load(mem, f, path[0])), path[1..]))
  }

  ghost predicate Cloned(s: Snap, o: Origin, parent: nat, child: nat) {
    && Cloning(s, o, parent, child) && child in o && o[child] == parent
    && forall h {:trigger Complete(s.mem, s.tags, o, h)} | h in o :: h in s.tags && Complete(s.mem, s.tags, o, h)
  }

  lemma {:induction false} CopyWalksAlike(s: Snap, o: Origin, parent: nat, child: nat, h: nat, path: seq<nat>, k: nat)
    requires Cloned(s, o, parent, child) && h in o && k < 4 && |path| == 4 && s.tags[h].path == path[..k]
    requires forall i | 0 <= i < 4 :: path[i] < ENTRIES
    requires path[0] < LOW_L4 && Reaches(s.mem, o[h], path[k..])
    ensures Walk(s.mem, h, path[k..]) == Walk(s.mem, o[h], path[k..])
    decreases 4 - k
  {
    var i := path[k];
    assert Repeats(s.mem, s.tags, o, parent, h) && Complete(s.mem, s.tags, o, h);
    assert path[k..][0] == i;
    assert i in AllSlots(s.tags[h].path);
    if k < 3 {
      assert path[k..][1..] == path[k + 1..] && path[..k + 1] == path[..k] + [i];
      assert i in s.tags[h].slots && Leads(s.mem, s.used, s.tags, h, i);
      CopyWalksAlike(s, o, parent, child, FrameOf(Load(s.mem, h, i)), path, k + 1);
    }
  }

  /** On the way of a complete walk every table's word is set. */
  lemma {:induction false} WordOnTheWay(s: Snap, f: nat, path: seq<nat>, k: nat, g: nat, m: nat)
    requires Sound(s.mem, s.used, s.tags) && |path| == 4 && k <= m < 3 && f in s.tags && g in s.tags
    requires Whole(s.tags, s.tags[f].root) && s.tags[f].root == s.tags[g].root
    requires s.tags[f].path == path[..k] && s.tags[g].path == path[..m] && Reaches(s.mem, f, path[k..])
    requires path[0] < LOW_L4 && forall i | 0 <= i < 4 :: path[i] < ENTRIES
    ensures Load(s.mem, g, path[m]) != 0
    decreases m - k
  {
    assert path[k..][0] == path[k];
    if k == m {
      assert Separate(s.tags, f, g);
    } else {
      assert path[k] in AllSlots(path[..k]);
      assert Leads(s.mem, s.used, s.tags, f, path[k]);
      assert path[k..][1..] == path[k + 1..] && path[..k + 1] == path[..k] + [path[k]];
      WordOnTheWay(s, FrameOf(Load(s.mem, f, path[k])), path, k + 1, g, m);
    }
  }

  lemma CopyOwns(s: Snap, o: Origin, parent: nat, child: nat, path: seq<nat>, f: nat)
    requires Cloned(s, o, parent, child) && |path| == 4 && Reaches(s.mem, parent, path)
    requires path[0] < LOW_L4 && forall i | 0 <= i < 4 :: path[i] < ENTRIES
    requires f in s.tags && s.tags[f].root == child && |s.tags[f].path| < 4 && s.tags[f].path <= path
    ensures path[|s.tags[f].path|] in s.tags[f].slots
  {
    var m := |s.tags[f].path|;
    assert f in o && Repeats(s.mem, s.tags, o, parent, f) && Complete(s.mem, s.tags, o, f);
    assert path[m] in AllSlots(s.tags[f].path);
    if m < 3 {
      assert s.tags[f].path == path[..m] && path[..0] == [] && path[0..] == path;
      assert TagOk(s.used, s.tags, parent);
      WordOnTheWay(s, parent, path, 0, o[f], m);
    }
  }

  /** Every page whose tables the parent has is the child's own and has the parent's leaf word. */
  lemma CloneIsFaithful(s: Snap, o: Origin, parent: nat, child: nat, p: nat)
    requires Cloned(s, o, parent, child) && p < LOW_PAGES && Reaches(s.mem, parent, PathOf(p))
    ensures Governed(s.tags, child, p) && Translate(s.mem, child, p) == Translate(s.mem, parent, p)
  {
    var path := PathOf(p);
    forall f | f in s.tags && s.tags[f].root == child && |s.tags[f].path| < 4 && s.tags[f].path <= path
      ensures path[|s.tags[f].path|] in s.tags[f].slots
    {
      CopyOwns(s, o, parent, child, path, f);
    }
    assert path[0..] == path && path[..0] == [];
    CopyWalksAlike(s, o, parent, child, child, path, 0);
  }

  lemma {:induction false} MappedReaches(mem: Memory, f: nat, path: seq<nat>)
    requires path != [] && Walk(mem, f, path) != 0
    ensures Reaches(mem, f, path)
    decreases |path|
  {
    if |path| > 1 { MappedReaches(mem, FrameOf(Load(mem, f, path[0])), path[1..]); }
  }

  // ----- clone_cr3 as a whole -----

  ghost function WithRoot(s: Snap, c: nat): Snap
    requires c < |s.used|
  {
    Snap(s.mem, s.used[c := true], s.tags[c := Node(c, [], c, {})])
  }

  lemma RootIsSound(s: Snap, c: nat)
    requires Sound(s.mem, s.used, s.tags) && c < |s.used| && !s.used[c]
    ensures var s' := WithRoot(s, c); Sound(s'.mem, s'.used, s'.tags)
  {
    var s' := WithRoot(s, c);
    FreeIsNoTable(s.mem, s.used, s.tags, c);
    forall f | f in s'.tags ensures TagOk(s'.used, s'.tags, f) && Referred(s'.mem, s'.tags, f) {
      if f != c { assert TagOk(s.used, s.tags, f) && Referred(s.mem, s.tags, f); }
    }
    forall f, g | f in s'.tags && g in s'.tags ensures Separate(s'.tags, f, g) {
      if f != c { assert TagOk(s.used, s.tags, f); }
      if g != c { assert TagOk(s.used, s.tags, g); }
      if f != c && g != c { assert Separate(s.tags, f, g); }
    }
    forall f, j | f in s'.tags && j in s'.tags[f].slots ensures Leads(s'.mem, s'.used, s'.tags, f, j) {
      assert Leads(s.mem, s.used, s.tags, f, j);
    }
  }

  lemma CloningStarts(s: Snap, parent: nat, c: nat)
    requires Sound(s.mem, s.used, s.tags) && Whole(s.tags, parent) && c < |s.used| && !s.used[c]
    ensures Cloning(WithRoot(s, c), map[c := parent], parent, c) && Evolves(s, WithRoot(s, c))
  {
    RootIsSound(s, c);
    FreeIsNoTable(s.mem, s.used, s.tags, c);
    forall f | f in s.tags ensures s.tags[f].root != c { OwnerIsTable(s.mem, s.used, s.tags, f); }
    assert TagOk(s.used, s.tags, parent);
  }

  ghost predicate OnlyHighWords(s: Snap, s': Snap, child: nat) {
    && s'.used == s.used && s'.tags == s.tags && |s'.mem| == |s.mem|
    && (forall f | 0 <= f < |s.mem| && f != child :: s'.mem[f] == s.mem[f])
    && child < |s.mem| && |s'.mem[child]| == |s.mem[child]| == ENTRIES
    && forall j | 0 <= j < LOW_L4 :: s'.mem[child][j] == s.mem[child][j]
  }

  lemma LowWordsSame(s: Snap, s': Snap, child: nat, f: nat, j: nat)
    requires OnlyHighWords(s, s', child) && IsRoot(s.tags, child) && f in s.tags && j in AllSlots(s.tags[f].path)
    ensures Load(s'.mem, f, j) == Load(s.mem, f, j)
  {}

  lemma HighWordsAreSound(s: Snap, s': Snap, o: Origin, parent: nat, child: nat)
    requires Cloned(s, o, parent, child) && OnlyHighWords(s, s', child)
    ensures Sound(s'.mem, s'.used, s'.tags)
  {
    forall f | f in s.tags ensures Referred(s'.mem, s'.tags, f) {
      assert Referred(s.mem, s.tags, f) && TagOk(s.used, s.tags, f);
      if s.tags[f].path != [] {
        assert TagOk(s.used, s.tags, s.tags[f].parent);
        LowWordsSame(s, s', child, s.tags[f].parent, s.tags[f].path[|s.tags[f].path| - 1]);
      }
    }
    forall f, j | f in s.tags && j in s.tags[f].slots ensures Leads(s'.mem, s'.used, s'.tags, f, j) {
      assert Leads(s.mem, s.used, s.tags, f, j) && TagOk(s.used, s.tags, f);
      LowWordsSame(s, s', child, f, j);
    }
  }

  lemma HighWordsRepeat(s: Snap, s': Snap, o: Origin, parent: nat, child: nat, h: nat)
    requires Cloned(s, o, parent, child) && OnlyHighWords(s, s', child) && h in o
    ensures Repeats(s'.mem, s'.tags, o, parent, h) && Complete(s'.mem, s'.tags, o, h)
  {
    assert Repeats(s.mem, s.tags, o, parent, h) && Complete(s.mem, s.tags, o, h) && TagOk(s.used, s.tags, h);
    forall j | j in s.tags[h].slots ensures Load(s'.mem, h, j) == Load(s.mem, h, j) {
      LowWordsSame(s, s', child, h, j);
    }
    assert o[h] != child;
    assert Present(s'.mem, o[h], s.tags[h].path, ENTRIES) == Present(s.mem, o[h], s.tags[h].path, ENTRIES);
  }

  /** Words of the child's L4 above the low half belong to no walk of the model. */
  lemma HighWordsAreFree(s: Snap, s': Snap, o: Origin, parent: nat, child: nat)
    requires Cloned(s, o, parent, child) && OnlyHighWords(s, s', child)
    ensures Cloned(s', o, parent, child)
  {
    HighWordsAreSound(s, s', o, parent, child);
    forall h | h in o ensures Repeats(s'.mem, s'.tags, o, parent, h) && Complete(s'.mem, s'.tags, o, h) {
      HighWordsRepeat(s, s', o, parent, child, h);
    }
  }

  /** No table that existed changed, and the new ones are the child's, made from free frames. */
  ghost predicate OnlyChildAdded(s0: Snap, s: Snap, child: nat) {
    && Evolves(s0, s) && child !in s0.tags && child in s.tags
    && (forall f {:trigger SameTable(s0, s, f)} | f in s0.tags :: SameTable(s0, s, f))
    && (forall f {:trigger StaleIn(s0, s, f)} | f in s.tags && f !in s0.tags ::
          s.tags[f].root == child && f < |s0.used| && !s0.used[f] && StaleIn(s0, s, f))
  }

  /** The unwritten low words of a child's table are what the frame held before. */
  ghost predicate StaleIn(s0: Snap, s: Snap, f: nat) {
    && f in s.tags && f < |s0.mem| && f < |s.mem|
    && forall j | j in AllSlots(s.tags[f].path) && j !in s.tags[f].slots :: Load(s.mem, f, j) == Load(s0.mem, f, j)
  }

  lemma UntouchedTranslates(s0: Snap, s: Snap, child: nat, r: nat, p: nat)
    requires Sound(s0.mem, s0.used, s0.tags) && OnlyChildAdded(s0, s, child) && Governed(s0.tags, r, p)
    ensures Governed(s.tags, r, p) && Translate(s.mem, r, p) == Translate(s0.mem, r, p)
  {
    forall f | f in s0.tags ensures SameTable(s0, s, f) {}
    assert TagOk(s0.used, s0.tags, r);
    forall f | f in s.tags && s.tags[f].root == r ensures f in s0.tags && s.tags[f] == s0.tags[f] {
      assert f !in s0.tags ==> StaleIn(s0, s, f);
      assert f in s0.tags ==> SameTable(s0, s, f);
    }
    WriteElsewhere(s0.mem, s0.used, s0.tags, s.mem, r, PathOf(p)[0] + 1, r, p);
  }

  method CopyHighWords(ram: PhysicalMemory, parent: nat, child: nat, ghost o: Origin)
    requires ram.Valid() && Cloned(ram.Now(), o, parent, child) && parent < |ram.mem| && child < |ram.mem|
    modifies ram`mem
    ensures ram.Valid() && Cloned(ram.Now(), o, parent, child)
    ensures |ram.mem| == |old(ram.mem)| && |ram.mem[child]| == ENTRIES == |ram.mem[parent]|
    ensures forall f | 0 <= f < |ram.mem| && f != child :: ram.mem[f] == old(ram.mem)[f]
    ensures forall j | 0 <= j < ENTRIES ::
              ram.mem[child][j] == if j < LOW_L4 then old(ram.mem)[child][j] else ram.mem[parent][j]
  {
    ghost var s0 := ram.Now();
    for i := LOW_L4 to ENTRIES
      invariant |ram.mem| == |s0.mem| && |ram.mem[child]| == ENTRIES == |ram.mem[parent]|
      invariant ram.mem == s0.mem[child := ram.mem[child]]
      invariant forall j | 0 <= j < ENTRIES ::
                  ram.mem[child][j] == if LOW_L4 <= j < i then ram.mem[parent][j] else s0.mem[child][j]
    {
      ram.mem := Poke(ram.mem, child, i, ram.mem[parent][i]);
    }
    HighWordsAreFree(s0, ram.Now(), o, parent, child);
  }

  lemma ChildTable(s0: Snap, s1: Snap, s2: Snap, s3: Snap, o: Origin, parent: nat, c: nat, f: nat)
    requires c < |s0.used| && !s0.used[c] && s1 == WithRoot(s0, c) && f in s2.tags && f !in s0.tags
    requires Progress(s1, map[c := parent], s2, o, parent, c, c) && OnlyHighWords(s2, s3, c)
    ensures s3.tags[f].root == c && f < |s0.used| && !s0.used[f] && StaleIn(s0, s3, f)
  {
    assert TagOk(s2.used, s2.tags, f) && Leftover(s1, s2, f);
  }

  lemma OldTable(s0: Snap, s1: Snap, s2: Snap, s3: Snap, o: Origin, parent: nat, c: nat, f: nat)
    requires Sound(s0.mem, s0.used, s0.tags) && c < |s0.used| && !s0.used[c] && s1 == WithRoot(s0, c) && f in s0.tags
    requires Progress(s1, map[c := parent], s2, o, parent, c, c) && OnlyHighWords(s2, s3, c)
    ensures SameTable(s0, s3, f)
  {
    assert TagOk(s0.used, s0.tags, f) && SameTable(s1, s2, f);
  }

  lemma ChildEvolves(s0: Snap, s1: Snap, s2: Snap, s3: Snap, o: Origin, parent: nat, c: nat)
    requires Sound(s0.mem, s0.used, s0.tags) && Whole(s0.tags, parent) && c < |s0.used| && !s0.used[c]
    requires s1 == WithRoot(s0, c) && Progress(s1, map[c := parent], s2, o, parent, c, c) && OnlyHighWords(s2, s3, c)
    ensures Evolves(s0, s3) && c !in s0.tags && c in s3.tags
  {
    FreeIsNoTable(s0.mem, s0.used, s0.tags, c);
    CloningStarts(s0, parent, c);
    EvolvesTransitively(s0, s1, s2);
  }

  lemma AddsOnlyChild(s0: Snap, s2: Snap, s3: Snap, o: Origin, parent: nat, c: nat)
    requires Sound(s0.mem, s0.used, s0.tags) && Whole(s0.tags, parent) && c < |s0.used| && !s0.used[c]
    requires Progress(WithRoot(s0, c), map[c := parent], s2, o, parent, c, c) && OnlyHighWords(s2, s3, c)
    ensures OnlyChildAdded(s0, s3, c)
  {
    var s1 := WithRoot(s0, c);
    ChildEvolves(s0, s1, s2, s3, o, parent, c);
    forall f | f in s0.tags ensures SameTable(s0, s3, f) {
      OldTable(s0, s1, s2, s3, o, parent, c, f);
    }
    forall f | f in s3.tags && f !in s0.tags
      ensures s3.tags[f].root == c && f < |s0.used| && !s0.used[f] && StaleIn(s0, s3, f)
    {
      ChildTable(s0, s1, s2, s3, o, parent, c, f);
    }
  }

  /** `clone_cr3` into a new L4 frame. */
  method CloneCr3(ram: PhysicalMemory, parent: nat) returns (ok: bool, child: nat, ghost o: Origin)
    requires ram.Valid() && Whole(ram.tags, parent)
    modifies ram`mem, ram`used, ram`tags
    ensures !ok ==> ram.Exhausted()
    ensures ok ==> ram.Valid() && Cloned(ram.Now(), o, parent, child)
    ensures ok ==> OnlyChildAdded(old(ram.Now()), ram.Now(), child)
    ensures ok ==> child < |ram.mem| && parent < |ram.mem| && |ram.mem[child]| == |ram.mem[parent]| == ENTRIES
    ensures ok ==> forall j | 128 <= j < 512 :: ram.mem[child][j] == ram.mem[parent][j]
  {
    ghost var s0 := ram.Now();
    assert TagOk(ram.used, ram.tags, parent);
    o := map[];
    ok, child := ram.GetFreeBlock();
    if !ok { return; }
    FreeIsNoTable(s0.mem, s0.used, s0.tags, child);
    CloningStarts(s0, parent, child);
    ram.tags := ram.tags[child := Node(child, [], child, {})];
    assert ram.Now() == WithRoot(s0, child);
    ok, o := CloneBelow(ram, parent, child, 4, parent, child, map[child := parent]);
    if !ok { return; }
    ghost var s2 := ram.Now();
    assert Cloned(s2, o, parent, child);
    CopyHighWords(ram, parent, child, o);
    AddsOnlyChild(s0, s2, ram.Now(), o, parent, child);
  }

  // ----- When free frames read as zero -----

  ghost predicate BlankFree(s: Snap) {
    forall f, j | 0 <= f < |s.used| && f < |s.mem| && !s.used[f] && 0 <= j < |s.mem[f]| :: s.mem[f][j] == 0
  }

  lemma BlankStays(s: Snap, s': Snap)
    requires BlankFree(s) && Evolves(s, s')
    ensures BlankFree(s')
  {}

  /** The child's tables hold no stale word. */
  ghost predicate NoStale(s: Snap, o: Origin) {
    forall h, j | h in o && h in s.tags && j in AllSlots(s.tags[h].path) && j !in s.tags[h].slots ::
        Load(s.mem, h, j) == 0
  }

  lemma BlankIsNotStale(s0: Snap, s: Snap, o: Origin, parent: nat, child: nat)
    requires Sound(s0.mem, s0.used, s0.tags) && BlankFree(s0) && Cloned(s, o, parent, child)
    requires OnlyChildAdded(s0, s, child)
    ensures NoStale(s, o)
  {
    forall h, j | h in o && h in s.tags && j in AllSlots(s.tags[h].path) && j !in s.tags[h].slots
      ensures Load(s.mem, h, j) == 0
    {
      assert h in s0.tags ==> SameTable(s0, s, h);
      if h in s0.tags { OwnerIsTable(s0.mem, s0.used, s0.tags, h); }
      assert StaleIn(s0, s, h);
    }
  }

  ghost function Widened(tags: Tags, child: nat): Tags {
    map f | f in tags :: if tags[f].root == child then tags[f].(slots := AllSlots(tags[f].path)) else tags[f]
  }

  lemma WidenIsSound(s: Snap, o: Origin, parent: nat, child: nat)
    requires Cloned(s, o, parent, child) && NoStale(s, o)
    ensures Sound(s.mem, s.used, Widened(s.tags, child)) && Whole(Widened(s.tags, child), child)
  {
    var tags' := Widened(s.tags, child);
    forall f | f in tags' ensures TagOk(s.used, tags', f) && Referred(s.mem, tags', f) {
      assert TagOk(s.used, s.tags, f) && Referred(s.mem, s.tags, f);
      if s.tags[f].path != [] { assert TagOk(s.used, s.tags, s.tags[f].parent); }
    }
    forall f, g | f in tags' && g in tags' ensures Separate(tags', f, g) {
      assert Separate(s.tags, f, g);
    }
    forall f, j | f in tags' && j in tags'[f].slots ensures Leads(s.mem, s.used, tags', f, j) {
      assert TagOk(s.used, s.tags, f);
      if j in s.tags[f].slots {
        assert Leads(s.mem, s.used, s.tags, f, j);
      } else {
        assert f in o && Load(s.mem, f, j) == 0;
      }
    }
  }

  lemma WidenKeepsGoverned(s: Snap, o: Origin, parent: nat, child: nat, r: nat, p: nat)
    requires Cloned(s, o, parent, child) && Governed(s.tags, r, p)
    ensures Governed(Widened(s.tags, child), r, p)
  {
    forall f | f in s.tags ensures s.tags[f].slots <= AllSlots(s.tags[f].path) { assert TagOk(s.used, s.tags, f); }
  }

  lemma {:induction false} CopyWalksSame(s: Snap, o: Origin, parent: nat, child: nat, h: nat, path: seq<nat>, k: nat)
    requires Cloned(s, o, parent, child) && NoStale(s, o) && h in o && k < 4 && |path| == 4
    requires s.tags[h].path == path[..k]
    requires path[0] < LOW_L4 && forall i | 0 <= i < 4 :: path[i] < ENTRIES
    ensures Walk(s.mem, h, path[k..]) == Walk(s.mem, o[h], path[k..])
    decreases 4 - k
  {
    var i := path[k];
    assert Repeats(s.mem, s.tags, o, parent, h) && Complete(s.mem, s.tags, o, h);
    assert path[k..][0] == i && i in AllSlots(s.tags[h].path);
    if k < 3 && Load(s.mem, o[h], i) != 0 {
      assert path[k..][1..] == path[k + 1..] && path[..k + 1] == path[..k] + [i];
      assert i in s.tags[h].slots && Leads(s.mem, s.used, s.tags, h, i);
      CopyWalksSame(s, o, parent, child, FrameOf(Load(s.mem, h, i)), path, k + 1);
    }
  }

  /** Then the two low halves are the same map. */
  lemma CloneIsExact(s: Snap, o: Origin, parent: nat, child: nat, p: nat)
    requires Cloned(s, o, parent, child) && NoStale(s, o) && p < LOW_PAGES
    ensures Translate(s.mem, child, p) == Translate(s.mem, parent, p)
  {
    var path := PathOf(p);
    assert path[0..] == path && path[..0] == [];
    CopyWalksSame(s, o, parent, child, child, path, 0);
  }

  // ----- Exactly when the child agrees with the parent -----

  /** Follow the parent's walk in both trees. Where it stops above L1, the child's table keeps the word `w` that the
      frame held before; that does no harm if it is zero or leads nowhere. */
  ghost predicate Harmless(s0: Snap, s: Snap, h: nat, g: nat, path: seq<nat>)
    requires path != []
    decreases |path|
  {
    |path| == 1 ||
    if Load(s.mem, g, path[0]) == 0 then
      var w := Load(s0.mem, h, path[0]);
      w == 0 || Walk(s.mem, FrameOf(w), path[1..]) == 0
    else Harmless(s0, s, FrameOf(Load(s.mem, h, path[0])), FrameOf(Load(s.mem, g, path[0])), path[1..])
  }

  /** A child's table was a free frame, and what the copy did not write is what it held. */
  lemma KeepsOldWord(s0: Snap, s: Snap, o: Origin, parent: nat, child: nat, h: nat, i: nat)
    requires Sound(s0.mem, s0.used, s0.tags) && Cloned(s, o, parent, child) && OnlyChildAdded(s0, s, child)
    requires h in o && i in AllSlots(s.tags[h].path) && i !in s.tags[h].slots
    ensures Load(s.mem, h, i) == Load(s0.mem, h, i)
  {
    assert h in s0.tags ==> SameTable(s0, s, h);
    if h in s0.tags { OwnerIsTable(s0.mem, s0.used, s0.tags, h); }
    assert StaleIn(s0, s, h);
  }

  lemma {:induction false} WalksAgreeExactly(s0: Snap, s: Snap, o: Origin, parent: nat, child: nat, h: nat,
                                             path: seq<nat>, k: nat)
    requires Sound(s0.mem, s0.used, s0.tags) && Cloned(s, o, parent, child) && OnlyChildAdded(s0, s, child)
    requires h in o && k < 4 && |path| == 4 && s.tags[h].path == path[..k]
    requires path[0] < LOW_L4 && forall i | 0 <= i < 4 :: path[i] < ENTRIES
    ensures Walk(s.mem, h, path[k..]) == Walk(s.mem, o[h], path[k..]) <==> Harmless(s0, s, h, o[h], path[k..])
    decreases 4 - k
  {
    var i := path[k];
    assert Repeats(s.mem, s.tags, o, parent, h) && Complete(s.mem, s.tags, o, h);
    assert path[k..][0] == i && i in AllSlots(s.tags[h].path);
    if k < 3 {
      assert path[k..][1..] == path[k + 1..] && path[..k + 1] == path[..k] + [i];
      if Load(s.mem, o[h], i) == 0 {
        KeepsOldWord(s0, s, o, parent, child, h, i);
      } else {
        assert i in s.tags[h].slots && Leads(s.mem, s.used, s.tags, h, i);
        WalksAgreeExactly(s0, s, o, parent, child, FrameOf(Load(s.mem, h, i)), path, k + 1);
      }
    }
  }

  /** For every low page, child and parent have the same leaf word if and only if the frames taken for the child held
      nothing harmful on the page's way. */
  lemma CloneAgreesExactly(s0: Snap, s: Snap, o: Origin, parent: nat, child: nat, p: nat)
    requires Sound(s0.mem, s0.used, s0.tags) && Cloned(s, o, parent, child) && OnlyChildAdded(s0, s, child)
    requires p < LOW_PAGES
    ensures Translate(s.mem, child, p) == Translate(s.mem, parent, p) <==> Harmless(s0, s, child, parent, PathOf(p))
  {
    var path := PathOf(p);
    assert path[0..] == path && path[..0] == [];
    WalksAgreeExactly(s0, s, o, parent, child, child, path, 0);
  }

  // ----- The child's stack -----

  lemma MappedFrameIsData(s: Snap, r: nat, p: nat)
    requires Sound(s.mem, s.used, s.tags) && Governed(s.tags, r, p) && Translate(s.mem, r, p) != 0
    ensures var d := FrameOf(Translate(s.mem, r, p)); d < |s.used| && s.used[d] && d !in s.tags
  {
    var path := PathOf(p);
    assert path[0..] == path && path[..0] == [];
    assert TagOk(s.used, s.tags, r);
    LeafFrameIsData(s, r, path, 0);
  }

  lemma {:induction false} LeafFrameIsData(s: Snap, f: nat, path: seq<nat>, k: nat)
    requires Sound(s.mem, s.used, s.tags) && f in s.tags && k < 4 && OwnPath(s.tags, s.tags[f].root, path)
    requires s.tags[f].path == path[..k] && Walk(s.mem, f, path[k..]) != 0
    ensures var d := FrameOf(Walk(s.mem, f, path[k..])); d < |s.used| && s.used[d] && d !in s.tags
    decreases 4 - k
  {
    var i := path[k];
    assert path[k..][0] == i && Leads(s.mem, s.used, s.tags, f, i);
    if k < 3 {
      assert path[k..][1..] == path[k + 1..] && path[..k + 1] == path[..k] + [i];
      LeafFrameIsData(s, FrameOf(s.mem[f][i]), path, k + 1);
    }
  }

  /** Writing a frame that is no table disturbs no walk. */
  lemma DataWriteIsSound(s: Snap, d: nat, row: seq<nat>)
    requires Sound(s.mem, s.used, s.tags) && d < |s.mem| && d !in s.tags && |row| == ENTRIES
    ensures Sound(s.mem[d := row], s.used, s.tags)
  {
    forall f | f in s.tags ensures Referred(s.mem[d := row], s.tags, f) {
      assert Referred(s.mem, s.tags, f);
    }
    forall f, j | f in s.tags && j in s.tags[f].slots ensures Leads(s.mem[d := row], s.used, s.tags, f, j) {
      assert Leads(s.mem, s.used, s.tags, f, j);
    }
  }

  lemma DataWriteTranslates(s: Snap, d: nat, row: seq<nat>, r: nat, p: nat)
    requires Sound(s.mem, s.used, s.tags) && d < |s.mem| && d !in s.tags && |row| == ENTRIES && Governed(s.tags, r, p)
    ensures Translate(s.mem[d := row], r, p) == Translate(s.mem, r, p)
  {
    assert TagOk(s.used, s.tags, r);
    WriteElsewhere(s.mem, s.used, s.tags, s.mem[d := row], r, PathOf(p)[0] + 1, r, p);
  }

  /** The child's page has a frame of its own holding what the parent's page held. */
  ghost predicate Remapped(s0: Snap, s: Snap, parent: nat, child: nat, p: nat) {
    var word := Translate(s.mem, child, p);
    var d, src := FrameOf(word), FrameOf(Translate(s0.mem, parent, p));
    && word == d * 4096 + 7 && d < |s0.used| && !s0.used[d] && d < |s.used| && s.used[d] && d !in s.tags
    && d < |s.mem| && src < |s0.mem| && s.mem[d] == s0.mem[src]
  }

  lemma DataWriteEvolves(s0: Snap, s: Snap, d: nat, row: seq<nat>)
    requires Evolves(s0, s) && d < |s.mem| && d < |s0.used| && !s0.used[d] && s.used[d]
    ensures Evolves(s0, s.(mem := s.mem[d := row]))
  {}

  lemma OutsideTwice(s0: Snap, s1: Snap, s2: Snap, root: nat, lo: nat, hi: nat)
    requires SameOutside(s0, s1, root, lo, hi) && SameOutside(s1, s2, root, lo, hi)
    ensures SameOutside(s0, s2, root, lo, hi)
  {}

  /** Unmap and map again: the page ends up on a frame that was free. */
  method RenewPage(ram: PhysicalMemory, pid: nat, page: nat) returns (ok: bool, phys: nat)
    requires ram.Valid() && pid in ram.cr3 && Governed(ram.tags, ram.cr3[pid], page)
    modifies ram`mem, ram`used, ram`tags
    ensures !ok ==> ram.Exhausted()
    ensures ok ==> ram.Valid() && Evolves(old(ram.Now()), ram.Now())
    ensures ok ==> SameOutside(old(ram.Now()), ram.Now(), ram.cr3[pid], page, page + 1)
                   && FreshlyMapped(old(ram.used), ram.mem, ram.used, ram.tags, ram.cr3[pid], page)
                   && phys == FrameOf(Translate(ram.mem, ram.cr3[pid], page)) * 4096
  {
    ram.Decrease(pid, page * 4096);
    ghost var s1 := ram.Now();
    assert Governed(ram.tags, ram.cr3[pid], page);
    ok, phys := ram.Increase(pid, page * 4096);
    if !ok { return; }
    EvolvesTransitively(old(ram.Now()), s1, ram.Now());
    OutsideTwice(old(ram.Now()), s1, ram.Now(), ram.cr3[pid], page, page + 1);
  }

  method CopyPage(ram: PhysicalMemory, d: nat, src: nat)
    requires ram.Valid() && d < |ram.mem| && src < |ram.mem| && d !in ram.tags
    modifies ram`mem
    ensures ram.Valid() && ram.mem == old(ram.mem)[d := old(ram.mem)[src]]
    ensures SameTranslations(old(ram.Now()), ram.Now())
  {
    ghost var s := ram.Now();
    DataWriteIsSound(s, d, ram.mem[src]);
    ram.mem := ram.mem[d := ram.mem[src]];
    forall r: nat, p: nat | Governed(s.tags, r, p) ensures Translate(ram.mem, r, p) == Translate(s.mem, r, p) {
      DataWriteTranslates(s, d, s.mem[src], r, p);
    }
  }

  lemma CopyRemaps(s0: Snap, s1: Snap, s2: Snap, parent: nat, child: nat, p: nat, d: nat, src: nat)
    requires Sound(s0.mem, s0.used, s0.tags) && Shaped(s1.mem, s1.used) && parent != child
    requires Governed(s0.tags, child, p) && Governed(s0.tags, parent, p) && Translate(s0.mem, parent, p) != 0
    requires Evolves(s0, s1) && SameOutside(s0, s1, child, p, p + 1)
    requires FreshlyMapped(s0.used, s1.mem, s1.used, s1.tags, child, p)
    requires d == FrameOf(Translate(s1.mem, child, p)) && src == FrameOf(Translate(s1.mem, parent, p))
    requires src < |s1.mem| && s2 == s1.(mem := s1.mem[d := s1.mem[src]]) && SameTranslations(s1, s2)
    ensures Evolves(s0, s2) && SameOutside(s0, s2, child, p, p + 1) && Remapped(s0, s2, parent, child, p)
  {
    assert Governed(s1.tags, child, p) && Governed(s1.tags, parent, p);
    MappedFrameIsData(s0, parent, p);
    DataWriteEvolves(s0, s1, d, s1.mem[src]);
    assert SameOutside(s1, s2, child, p, p + 1);
    OutsideTwice(s0, s1, s2, child, p, p + 1);
  }

  /** One round of the loop in `sys_fork`: give the child's page a new frame and copy the parent's bytes. */
  method RemapPage(ram: PhysicalMemory, childPid: nat, parent: nat, page: nat) returns (ok: bool)
    requires ram.Valid() && childPid in ram.cr3 && ram.cr3[childPid] != parent
    requires Governed(ram.tags, ram.cr3[childPid], page) && Governed(ram.tags, parent, page)
    requires Translate(ram.mem, parent, page) != 0
    modifies ram`mem, ram`used, ram`tags
    ensures !ok ==> ram.Exhausted()
    ensures ok ==> ram.Valid() && Evolves(old(ram.Now()), ram.Now())
    ensures ok ==> SameOutside(old(ram.Now()), ram.Now(), ram.cr3[childPid], page, page + 1)
                   && Remapped(old(ram.Now()), ram.Now(), parent, ram.cr3[childPid], page)
  {
    var phys;
    ok, phys := RenewPage(ram, childPid, page);
    if !ok { return; }
    ghost var s1 := ram.Now();
    assert Governed(s1.tags, parent, page);
    MappedFrameIsData(s1, parent, page);
    var d, src := phys / 4096, FrameOf(Translate(ram.mem, parent, page));
    assert d == FrameOf(Translate(ram.mem, ram.cr3[childPid], page));
    CopyPage(ram, d, src);
    CopyRemaps(old(ram.Now()), s1, ram.Now(), parent, ram.cr3[childPid], page, d, src);
  }

  lemma StaysRemapped(s0: Snap, s1: Snap, s2: Snap, parent: nat, child: nat, p: nat, q: nat)
    requires Remapped(s0, s1, parent, child, q) && Governed(s1.tags, child, q) && q != p
    requires Evolves(s1, s2) && SameOutside(s1, s2, child, p, p + 1)
    ensures Remapped(s0, s2, parent, child, q)
  {}

  lemma NewlyRemapped(s0: Snap, s1: Snap, s2: Snap, parent: nat, child: nat, lo: nat, hi: nat, p: nat)
    requires Sound(s0.mem, s0.used, s0.tags) && parent != child
    requires Governed(s0.tags, parent, p) && Translate(s0.mem, parent, p) != 0
    requires Evolves(s0, s1) && SameOutside(s0, s1, child, lo, hi) && Remapped(s1, s2, parent, child, p)
    ensures Remapped(s0, s2, parent, child, p)
  {
    MappedFrameIsData(s0, parent, p);
  }

  lemma OutsideGrows(s0: Snap, s1: Snap, s2: Snap, root: nat, lo: nat, hi: nat)
    requires 0 < lo <= hi && SameOutside(s0, s1, root, lo, hi) && SameOutside(s1, s2, root, lo - 1, lo)
    ensures SameOutside(s0, s2, root, lo - 1, hi)
  {}

  /** The stack loop so far: pages `lo..hi` of the child renewed, nothing else moved. */
  ghost predicate StackRemapped(s0: Snap, s: Snap, parent: nat, child: nat, lo: nat, hi: nat) {
    && Evolves(s0, s) && SameOutside(s0, s, child, lo, hi)
    && forall p {:trigger Remapped(s0, s, parent, child, p)} | lo <= p < hi :: Remapped(s0, s, parent, child, p)
  }

  ghost predicate StackReady(s: Snap, parent: nat, child: nat, lo: nat, hi: nat) {
    forall p {:trigger Translate(s.mem, parent, p)} | lo <= p < hi ::
      Governed(s.tags, parent, p) && Governed(s.tags, child, p) && Translate(s.mem, parent, p) != 0
  }

  lemma StackNext(s0: Snap, s1: Snap, s2: Snap, parent: nat, child: nat, base: nat, lo: nat, hi: nat)
    requires Sound(s0.mem, s0.used, s0.tags) && parent != child && base < lo <= hi
    requires StackReady(s0, parent, child, base, hi)
    requires StackRemapped(s0, s1, parent, child, lo, hi)
    requires Evolves(s1, s2) && SameOutside(s1, s2, child, lo - 1, lo) && Remapped(s1, s2, parent, child, lo - 1)
    ensures StackRemapped(s0, s2, parent, child, lo - 1, hi)
  {
    EvolvesTransitively(s0, s1, s2);
    OutsideGrows(s0, s1, s2, child, lo, hi);
    forall p | lo - 1 <= p < hi ensures Remapped(s0, s2, parent, child, p) {
      assert Translate(s0.mem, parent, p) != 0;
      if p == lo - 1 {
        NewlyRemapped(s0, s1, s2, parent, child, lo, hi, p);
      } else {
        assert Remapped(s0, s1, parent, child, p) && Governed(s1.tags, child, p);
        StaysRemapped(s0, s1, s2, parent, child, lo - 1, p);
      }
    }
  }

  lemma StackPageReady(s0: Snap, s1: Snap, parent: nat, child: nat, base: nat, lo: nat, hi: nat)
    requires parent != child && base < lo <= hi && StackReady(s0, parent, child, base, hi)
    requires StackRemapped(s0, s1, parent, child, lo, hi)
    ensures Governed(s1.tags, parent, lo - 1) && Governed(s1.tags, child, lo - 1)
    ensures Translate(s1.mem, parent, lo - 1) != 0
  {
    assert Translate(s0.mem, parent, lo - 1) != 0;
  }

  method RemapNext(ram: PhysicalMemory, childPid: nat, parent: nat, page: nat, ghost s0: Snap, ghost base: nat,
                   ghost hi: nat)
    returns (ok: bool)
    requires ram.Valid() && childPid in ram.cr3 && ram.cr3[childPid] != parent && base <= page < hi
    requires Sound(s0.mem, s0.used, s0.tags) && StackReady(s0, parent, ram.cr3[childPid], base, hi)
    requires StackRemapped(s0, ram.Now(), parent, ram.cr3[childPid], page + 1, hi)
    modifies ram`mem, ram`used, ram`tags
    ensures !ok ==> ram.Exhausted()
    ensures ok ==> ram.Valid() && StackRemapped(s0, ram.Now(), parent, ram.cr3[childPid], page, hi)
  {
    StackPageReady(s0, ram.Now(), parent, ram.cr3[childPid], base, page + 1, hi);
    ok := RemapPage(ram, childPid, parent, page);
    if ok { StackNext(s0, old(ram.Now()), ram.Now(), parent, ram.cr3[childPid], base, page + 1, hi); }
  }

  method RemapStack(ram: PhysicalMemory, childPid: nat, parent: nat, top: nat) returns (ok: bool)
    requires ram.Valid() && childPid in ram.cr3 && ram.cr3[childPid] != parent && top >= 4
    requires StackReady(ram.Now(), parent, ram.cr3[childPid], top - 4, top)
    modifies ram`mem, ram`used, ram`tags
    ensures !ok ==> ram.Exhausted()
    ensures ok ==> ram.Valid() && StackRemapped(old(ram.Now()), ram.Now(), parent, ram.cr3[childPid], top - 4, top)
  {
    for i := 0 to 4
      invariant ram.Valid() && StackRemapped(old(ram.Now()), ram.Now(), parent, ram.cr3[childPid], top - i, top)
    {
      ok := RemapNext(ram, childPid, parent, top - (i + 1), old(ram.Now()), top - 4, top);
      if !ok { return; }
    }
    ok := true;
  }

  // ----- sys_fork -----

  /** What fork leaves behind: nobody else's translation moved, the child's stack is its own copy, and
      elsewhere the child has the parent's leaf word wherever the parent has the tables for it. */
  ghost predicate Forked(s0: Snap, s: Snap, parent: nat, child: nat, lo: nat, hi: nat) {
    && SameTranslations(s0, s) && child !in s0.tags
    && (forall p {:trigger Remapped(s0, s, parent, child, p)} | lo <= p < hi :: Remapped(s0, s, parent, child, p))
    && (forall p {:trigger Inherits(s0, s, parent, child, p)} | 0 <= p < LOW_PAGES && !(lo <= p < hi) ::
          (Reaches(s0.mem, parent, PathOf(p)) || BlankFree(s0)) ==> Inherits(s0, s, parent, child, p))
  }

  ghost predicate Inherits(s0: Snap, s: Snap, parent: nat, child: nat, p: nat) {
    Governed(s.tags, child, p) && Translate(s.mem, child, p) == Translate(s0.mem, parent, p)
  }

  /** The state between the clone and the stack loop. */
  ghost predicate CloneDone(s0: Snap, s: Snap, parent: nat, child: nat) {
    && Evolves(s0, s) && SameTranslations(s0, s) && child !in s0.tags
    && forall p {:trigger Inherits(s0, s, parent, child, p)} | 0 <= p < LOW_PAGES ::
         (Reaches(s0.mem, parent, PathOf(p)) || BlankFree(s0)) ==> Inherits(s0, s, parent, child, p)
  }

  lemma {:induction false} ReachesKept(s0: Snap, s: Snap, child: nat, f: nat, path: seq<nat>, k: nat)
    requires Sound(s0.mem, s0.used, s0.tags) && OnlyChildAdded(s0, s, child) && f in s0.tags
    requires Whole(s0.tags, s0.tags[f].root)
    requires |path| == 4 && k < 4 && s0.tags[f].path == path[..k] && Reaches(s0.mem, f, path[k..])
    requires path[0] < LOW_L4 && forall i | 0 <= i < 4 :: path[i] < ENTRIES
    ensures Reaches(s.mem, f, path[k..])
    decreases 4 - k
  {
    assert SameTable(s0, s, f) && path[k..][0] == path[k];
    if k < 3 {
      assert path[k] in AllSlots(path[..k]) && Leads(s0.mem, s0.used, s0.tags, f, path[k]);
      assert path[k..][1..] == path[k + 1..] && path[..k + 1] == path[..k] + [path[k]];
      ReachesKept(s0, s, child, FrameOf(Load(s0.mem, f, path[k])), path, k + 1);
    }
  }

  lemma ChildInherits(s0: Snap, s: Snap, o: Origin, parent: nat, child: nat, p: nat)
    requires Sound(s0.mem, s0.used, s0.tags) && Whole(s0.tags, parent) && p < LOW_PAGES
    requires Cloned(s, o, parent, child) && OnlyChildAdded(s0, s, child) && Reaches(s0.mem, parent, PathOf(p))
    ensures Inherits(s0, s, parent, child, p)
  {
    var path := PathOf(p);
    assert path[0..] == path && path[..0] == [];
    assert TagOk(s0.used, s0.tags, parent);
    ReachesKept(s0, s, child, parent, path, 0);
    CloneIsFaithful(s, o, parent, child, p);
    WholeIsGoverned(s0.tags, parent, p);
    UntouchedTranslates(s0, s, child, parent, p);
  }

  lemma CloneFinishes(s0: Snap, s: Snap, o: Origin, parent: nat, child: nat)
    requires Sound(s0.mem, s0.used, s0.tags) && Whole(s0.tags, parent) && !BlankFree(s0)
    requires Cloned(s, o, parent, child) && OnlyChildAdded(s0, s, child)
    ensures CloneDone(s0, s, parent, child)
  {
    forall r: nat, p: nat | Governed(s0.tags, r, p)
      ensures Governed(s.tags, r, p) && Translate(s.mem, r, p) == Translate(s0.mem, r, p)
    {
      UntouchedTranslates(s0, s, child, r, p);
    }
    forall p: nat | p < LOW_PAGES && Reaches(s0.mem, parent, PathOf(p)) ensures Inherits(s0, s, parent, child, p) {
      ChildInherits(s0, s, o, parent, child, p);
    }
  }

  lemma WidenEvolves(s0: Snap, s: Snap, o: Origin, parent: nat, child: nat)
    requires Evolves(s0, s) && Cloned(s, o, parent, child)
    ensures Evolves(s0, s.(tags := Widened(s.tags, child)))
  {
    forall r | Whole(s.tags, r) ensures Whole(Widened(s.tags, child), r) {}
  }

  lemma CloneFinishesBlank(s0: Snap, s: Snap, o: Origin, parent: nat, child: nat)
    requires Sound(s0.mem, s0.used, s0.tags) && Whole(s0.tags, parent) && BlankFree(s0)
    requires Cloned(s, o, parent, child) && OnlyChildAdded(s0, s, child)
    ensures var s' := s.(tags := Widened(s.tags, child));
            CloneDone(s0, s', parent, child) && Sound(s'.mem, s'.used, s'.tags) && Whole(s'.tags, child)
  {
    var s' := s.(tags := Widened(s.tags, child));
    BlankIsNotStale(s0, s, o, parent, child);
    WidenIsSound(s, o, parent, child);
    WidenEvolves(s0, s, o, parent, child);
    forall r: nat, p: nat | Governed(s0.tags, r, p)
      ensures Governed(s'.tags, r, p) && Translate(s'.mem, r, p) == Translate(s0.mem, r, p)
    {
      UntouchedTranslates(s0, s, child, r, p);
      WidenKeepsGoverned(s, o, parent, child, r, p);
    }
    forall p: nat | p < LOW_PAGES ensures Inherits(s0, s', parent, child, p) {
      WholeIsGoverned(s'.tags, child, p);
      WholeIsGoverned(s0.tags, parent, p);
      CloneIsExact(s, o, parent, child, p);
      UntouchedTranslates(s0, s, child, parent, p);
    }
  }

  method CloneForFork(ram: PhysicalMemory, parent: nat) returns (ok: bool, child: nat)
    requires ram.Valid() && Whole(ram.tags, parent)
    modifies ram`mem, ram`used, ram`tags
    ensures !ok ==> ram.Exhausted()
    ensures ok ==> ram.Valid() && IsRoot(ram.tags, child) && CloneDone(old(ram.Now()), ram.Now(), parent, child)
    ensures ok && BlankFree(old(ram.Now())) ==> Whole(ram.tags, child)
  {
    ghost var o;
    ok, child, o := CloneCr3(ram, parent);
    if !ok { return; }
    if BlankFree(old(ram.Now())) {
      CloneFinishesBlank(old(ram.Now()), ram.Now(), o, parent, child);
      ram.tags := Widened(ram.tags, child);
    } else {
      CloneFinishes(old(ram.Now()), ram.Now(), o, parent, child);
    }
  }

  lemma StackIsReady(s0: Snap, s1: Snap, parent: nat, child: nat, lo: nat, hi: nat)
    requires CloneDone(s0, s1, parent, child) && Whole(s0.tags, parent) && lo <= hi <= LOW_PAGES
    requires forall p | lo <= p < hi :: Translate(s0.mem, parent, p) != 0
    ensures StackReady(s1, parent, child, lo, hi)
  {
    forall p | lo <= p < hi
      ensures Governed(s1.tags, parent, p) && Governed(s1.tags, child, p) && Translate(s1.mem, parent, p) != 0
    {
      WholeIsGoverned(s0.tags, parent, p);
      MappedReaches(s0.mem, parent, PathOf(p));
      assert Inherits(s0, s1, parent, child, p);
    }
  }

  lemma ForkFinishes(s0: Snap, s1: Snap, s2: Snap, parent: nat, child: nat, lo: nat, hi: nat)
    requires Sound(s0.mem, s0.used, s0.tags) && Whole(s0.tags, parent) && lo <= hi <= LOW_PAGES && parent != child
    requires forall p | lo <= p < hi :: Translate(s0.mem, parent, p) != 0
    requires CloneDone(s0, s1, parent, child) && StackRemapped(s1, s2, parent, child, lo, hi)
    ensures Forked(s0, s2, parent, child, lo, hi)
  {
    forall p | lo <= p < hi ensures Remapped(s0, s2, parent, child, p) {
      WholeIsGoverned(s0.tags, parent, p);
      assert Remapped(s1, s2, parent, child, p);
      NewlyRemapped(s0, s1, s2, parent, child, 0, 0, p);
    }
    forall p | 0 <= p < LOW_PAGES && !(lo <= p < hi) && (Reaches(s0.mem, parent, PathOf(p)) || BlankFree(s0))
      ensures Inherits(s0, s2, parent, child, p)
    {
      assert Inherits(s0, s1, parent, child, p);
    }
  }

  /** The address-space part of `sys_fork`; the parent's stack, of which a copy is made, is mapped. */
  method SysFork(ram: PhysicalMemory, parentPid: nat, childPid: nat, stackTop: nat) returns (ok: bool)
    requires ram.Valid() && parentPid in ram.cr3 && childPid != parentPid && Whole(ram.tags, ram.cr3[parentPid])
    requires 4 <= stackTop <= LOW_PAGES
    requires forall p | stackTop - 4 <= p < stackTop :: Translate(ram.mem, ram.cr3[parentPid], p) != 0
    modifies ram
    ensures !ok ==> ram.Exhausted()
    ensures ok ==> ram.Valid() && childPid in ram.cr3 && ram.cr3 == old(ram.cr3)[childPid := ram.cr3[childPid]]
    ensures ok ==> Forked(old(ram.Now()), ram.Now(), ram.cr3[parentPid], ram.cr3[childPid], stackTop - 4, stackTop)
    ensures ok ==> Evolves(old(ram.Now()), ram.Now())
    ensures ok && BlankFree(old(ram.Now())) ==> BlankFree(ram.Now()) && Whole(ram.tags, ram.cr3[childPid])
  {
    ghost var s0 := ram.Now();
    var parent, child := ram.cr3[parentPid], 0;
    ok, child := CloneForFork(ram, parent);
    if !ok { return; }
    ghost var s1 := ram.Now();
    ram.cr3 := ram.cr3[childPid := child];
    StackIsReady(s0, s1, parent, child, stackTop - 4, stackTop);
    ok := RemapStack(ram, childPid, parent, stackTop);
    if !ok { return; }
    ForkFinishes(s0, s1, ram.Now(), parent, child, stackTop - 4, stackTop);
    EvolvesTransitively(s0, s1, ram.Now());
    if BlankFree(s0) { BlankStays(s0, ram.Now()); }
  }

  // ----- Forks of forks -----

  /** `root` can be forked in `s`, and has the pages `first` had in `s0`, those of the stack `lo..hi` excepted. */
  ghost predicate Kin(s0: Snap, first: nat, s: Snap, root: nat, lo: nat, hi: nat) {
    && Whole(s.tags, root)
    && (forall p: nat | lo <= p < hi :: Translate(s.mem, root, p) != 0)
    && (forall p: nat | p < LOW_PAGES && !(lo <= p < hi) ::
        Translate(s.mem, root, p) == Translate(s0.mem, first, p))
  }

  lemma ChildIsKin(s0: Snap, first: nat, s1: Snap, s2: Snap, parent: nat, child: nat, lo: nat, hi: nat)
    requires Kin(s0, first, s1, parent, lo, hi) && Forked(s1, s2, parent, child, lo, hi)
    requires BlankFree(s1) && Whole(s2.tags, child)
    ensures Kin(s0, first, s2, child, lo, hi)
  {
    forall p: nat | lo <= p < hi ensures Translate(s2.mem, child, p) != 0 {
      assert Remapped(s1, s2, parent, child, p);
    }
    forall p: nat | p < LOW_PAGES && !(lo <= p < hi)
      ensures Translate(s2.mem, child, p) == Translate(s0.mem, first, p)
    {
      assert Inherits(s1, s2, parent, child, p);
    }
  }

  lemma KinStays(s0: Snap, first: nat, s1: Snap, s2: Snap, root: nat, lo: nat, hi: nat)
    requires Kin(s0, first, s1, root, lo, hi) && SameTranslations(s1, s2) && Evolves(s1, s2) && hi <= LOW_PAGES
    ensures Kin(s0, first, s2, root, lo, hi)
  {
    forall p: nat | p < LOW_PAGES ensures Translate(s2.mem, root, p) == Translate(s1.mem, root, p) {
      WholeIsGoverned(s1.tags, root, p);
    }
  }

  /** The process `first` and every child of a fork in `calls`, which lists parents with children. */
  ghost function Family(first: nat, calls: seq<(nat, nat)>): set<nat> {
    {first} + set c | c in calls :: c.1
  }

  lemma FamilyNext(first: nat, calls: seq<(nat, nat)>, i: nat)
    requires i < |calls|
    ensures Family(first, calls[..i + 1]) == Family(first, calls[..i]) + {calls[i].1}
  {
    assert calls[..i + 1] == calls[..i] + [calls[i]];
  }

  /** Since `s0` no translation has changed, and every process in `pids` is kin of `first`. */
  ghost predicate AllKin(s0: Snap, first: nat, s: Snap, cr3: map<nat, nat>, pids: set<nat>, lo: nat, hi: nat) {
    && BlankFree(s) && SameTranslations(s0, s)
    && forall pid | pid in pids :: pid in cr3 && Kin(s0, first, s, cr3[pid], lo, hi)
  }

  lemma FamilyGrows(s0: Snap, first: nat, s1: Snap, s2: Snap, cr3: map<nat, nat>, pids: set<nat>, parentPid: nat,
                    childPid: nat, child: nat, lo: nat, hi: nat)
    requires AllKin(s0, first, s1, cr3, pids, lo, hi) && parentPid in pids && hi <= LOW_PAGES && BlankFree(s2)
    requires Forked(s1, s2, cr3[parentPid], child, lo, hi) && Evolves(s1, s2) && Whole(s2.tags, child)
    ensures AllKin(s0, first, s2, cr3[childPid := child], pids + {childPid}, lo, hi)
  {
    ChildIsKin(s0, first, s1, s2, cr3[parentPid], child, lo, hi);
    forall pid | pid in pids ensures Kin(s0, first, s2, cr3[pid], lo, hi) {
      KinStays(s0, first, s1, s2, cr3[pid], lo, hi);
    }
  }

  method ForkStep(ram: PhysicalMemory, ghost s0: Snap, ghost first: nat, ghost pids: set<nat>, parentPid: nat,
                  childPid: nat, stackTop: nat)
    returns (ok: bool)
    requires ram.Valid() && 4 <= stackTop <= LOW_PAGES && parentPid in pids && parentPid != childPid
    requires AllKin(s0, first, ram.Now(), ram.cr3, pids, stackTop - 4, stackTop)
    modifies ram
    ensures if ok then ram.Valid() else ram.Exhausted()
    ensures ok ==> AllKin(s0, first, ram.Now(), ram.cr3, pids + {childPid}, stackTop - 4, stackTop)
  {
    ghost var s1, cr3, lo := ram.Now(), ram.cr3, stackTop - 4;
    assert Kin(s0, first, s1, cr3[parentPid], lo, stackTop);
    ok := SysFork(ram, parentPid, childPid, stackTop);
    if !ok { return; }
    FamilyGrows(s0, first, s1, ram.Now(), cr3, pids, parentPid, childPid, ram.cr3[childPid], lo, stackTop);
  }

  /** While free frames read as zero, every child can fork in turn, whichever member of the family forks next: each
      of them has the pages the first one had, and no process that was there before has changed. */
  method ForkRun(ram: PhysicalMemory, first: nat, calls: seq<(nat, nat)>, stackTop: nat) returns (ok: bool)
    requires ram.Valid() && first in ram.cr3 && BlankFree(ram.Now()) && Whole(ram.tags, ram.cr3[first])
    requires 4 <= stackTop <= LOW_PAGES
    requires forall p | stackTop - 4 <= p < stackTop :: Translate(ram.mem, ram.cr3[first], p) != 0
    requires forall i | 0 <= i < |calls| :: calls[i].0 in Family(first, calls[..i]) && calls[i].0 != calls[i].1
    modifies ram
    ensures if ok then ram.Valid() else ram.Exhausted()
    ensures ok ==> AllKin(old(ram.Now()), old(ram.cr3[first]), ram.Now(), ram.cr3, Family(first, calls),
                          stackTop - 4, stackTop)
  {
    ghost var s0, root := ram.Now(), ram.cr3[first];
    for i := 0 to |calls|
      invariant ram.Valid()
      invariant AllKin(s0, root, ram.Now(), ram.cr3, Family(first, calls[..i]), stackTop - 4, stackTop)
    {
      ok := ForkStep(ram, s0, root, Family(first, calls[..i]), calls[i].0, calls[i].1, stackTop);
      if !ok { return; }
      FamilyNext(first, calls, i);
    }
    assert calls[..|calls|] == calls;
    ok := true;
  }
}
