/** Frame allocation and the page-table editing of core/scheduler.h, in place on physical memory. */
module AddressSpaces {
  import opened PageTables

  /** The descent towards a page, begun in `s0`, has come to table `f` at depth `k`; no page moved, and only `f` can be
      newly empty. */
  ghost predicate Descended(s0: Snap, s: Snap, root: nat, page: nat, k: nat, f: nat) {
    && Evolves(s0, s) && SameTranslations(s0, s) && NoNewEmptyBut(s0, s, f) && k <= 3
    && Governed(s.tags, root, page) && f in s.tags && s.tags[f].root == root && s.tags[f].path == PathOf(page)[..k]
  }

  lemma DescentBegins(s: Snap, root: nat, page: nat)
    requires Sound(s.mem, s.used, s.tags) && Governed(s.tags, root, page)
    ensures Descended(s, s, root, page, 0, root)
  {
    assert TagOk(s.used, s.tags, root);
  }

  /** The table left behind got a word before the next one was entered. */
  lemma DescentGoesOn(s0: Snap, s1: Snap, s2: Snap, root: nat, page: nat, k: nat, f: nat, next: nat)
    requires Descended(s0, s1, root, page, k, f) && k < 3
    requires Evolves(s1, s2) && SameTranslations(s1, s2) && HasWord(s2.mem, f) && NoNewEmptyBut(s1, s2, next)
    requires next in s2.tags && s2.tags[next].root == root && s2.tags[next].path == s1.tags[f].path + [PathOf(page)[k]]
    ensures Descended(s0, s2, root, page, k + 1, next)
  {
    EvolvesTransitively(s0, s1, s2);
    assert PathOf(page)[..k + 1] == PathOf(page)[..k] + [PathOf(page)[k]];
    forall r: nat, p: nat | Governed(s0.tags, r, p)
      ensures Governed(s2.tags, r, p) && Translate(s2.mem, r, p) == Translate(s0.mem, r, p)
    {
      assert Governed(s1.tags, r, p);
    }
    forall g: nat | Empty(s2, g) && g != next ensures Empty(s0, g) {
      assert Empty(s1, g) && g != f && !HasWord(s1.mem, g);
    }
  }

  lemma EmptyFilled(s0: Snap, s1: Snap, s2: Snap, l1: nat)
    requires NoNewEmptyBut(s0, s1, l1) && NoNewEmpty(s1, s2) && HasWord(s2.mem, l1)
    ensures NoNewEmpty(s0, s2)
  {
    forall f: nat | Empty(s2, f) ensures Empty(s0, f) {
      assert Empty(s1, f) && f != l1 && !HasWord(s1.mem, f);
    }
  }

  /** Cutting off the emptied table leaves only its parent in doubt. */
  lemma EmptyMovesUp(s0: Snap, s1: Snap, s2: Snap, f: nat, up: nat)
    requires NoNewEmptyBut(s0, s1, f) && NoNewEmptyBut(s1, s2, up) && f !in s2.tags
    ensures NoNewEmptyBut(s0, s2, up)
  {
    forall g: nat | Empty(s2, g) && g != up ensures Empty(s0, g) {
      assert Empty(s1, g) && g != f && !HasWord(s1.mem, g);
    }
  }

  /** Reaching the L1 table moved no page and took only free frames, so what the leaf write did is the whole effect. */
  lemma MapEnds(s0: Snap, s1: Snap, s2: Snap, root: nat, page: nat, phys: nat)
    requires Evolves(s0, s1) && Evolves(s1, s2) && SameTranslations(s0, s1) && SameOutside(s1, s2, root, page, page + 1)
    requires Governed(s0.tags, root, page) && GivesPage(s1, s2, root, page, phys)
    ensures Evolves(s0, s2) && SameOutside(s0, s2, root, page, page + 1) && GivesPage(s0, s2, root, page, phys)
  {
    EvolvesTransitively(s0, s1, s2);
    forall r: nat, p: nat | Governed(s0.tags, r, p)
      ensures Governed(s2.tags, r, p)
      ensures (!(r == root && page <= p < page + 1) ==> Translate(s2.mem, r, p) == Translate(s0.mem, r, p))
    {
      assert Governed(s1.tags, r, p);
    }
  }

  class PhysicalMemory {
    var mem: Memory
    var used: seq<bool>             // memory_map
    var cr3: map<nat, nat>          // the L4 frame of each process
    const kernelBlocks: nat
    ghost var tags: Tags

    /** Memory as the boot code leaves it, whatever the frames hold; no process has tables yet. */
    constructor (mem: Memory, used: seq<bool>, kernelBlocks: nat)
      requires Shaped(mem, used) && kernelBlocks > 0
      ensures Valid() && this.mem == mem && this.used == used && cr3 == map[] && this.kernelBlocks == kernelBlocks
    {
      this.mem, this.used, this.kernelBlocks := mem, used, kernelBlocks;
      cr3, tags := map[], map[];
    }

    ghost predicate Valid()
      reads this
    {
      kernelBlocks > 0 && Sound(mem, used, tags) && forall p | p in cr3 :: IsRoot(tags, cr3[p])
    }

    ghost function Now(): Snap
      reads this
    {
      Snap(mem, used, tags)
    }

    /** The only way an operation stops half way: the kernel panics and halts. */
    ghost predicate Exhausted()
      reads this
    {
      forall j | kernelBlocks <= j < |used| :: used[j]
    }

    /** `get_a_free_block`: the lowest free frame above the kernel. Without one the kernel panics. */
    method GetFreeBlock() returns (ok: bool, block: nat)
      modifies this`used
      ensures ok ==> kernelBlocks <= block < |old(used)| && !old(used)[block] && used == old(used)[block := true]
      ensures ok ==> forall j | kernelBlocks <= j < block :: old(used)[j]
      ensures !ok ==> used == old(used) && Exhausted()
    {
      block := kernelBlocks;
      while block < |used|
        invariant kernelBlocks <= block
        invariant used == old(used)
        invariant forall j | kernelBlocks <= j < block && j < |used| :: used[j]
      {
        if !used[block] {
          used := used[block := true];
          return true, block;
        }
        block := block + 1;
      }
      return false, 0;
    }

    /** Hang an erased table on a zero word. */
    method LinkNew(table: nat, i: nat) returns (ok: bool, next: nat)
      requires Valid() && table in tags && |tags[table].path| < 3 && i in tags[table].slots
      requires table < |mem| && i < |mem[table]| && mem[table][i] == 0
      modifies this`mem, this`used, this`tags
      ensures !ok ==> Exhausted()
      ensures ok ==> Valid() && Evolves(old(Now()), Now()) && SameTranslations(old(Now()), Now())
      ensures ok ==> next !in old(tags) && next < |old(mem)| && next < FRAMES
      ensures ok ==> tags == Linked(old(tags), table, i, next)
                     && mem == WithTable(old(mem), table, i, next)
    {
      ghost var s := Now();
      assert TagOk(used, tags, table);
      ok, next := GetFreeBlock();
      if !ok {
        return;
      }
      LinkIsSound(s.mem, s.used, s.tags, table, i, next);
      FreeIsNoTable(s.mem, s.used, s.tags, next);
      mem := mem[next := Blank()];
      mem := Poke(mem, table, i, MakeEntry(next, FLAGS));
      tags := Linked(tags, table, i, next);
      forall r: nat, p: nat | Governed(s.tags, r, p)
        ensures Governed(tags, r, p) && Translate(mem, r, p) == Translate(s.mem, r, p)
      {
        LinkKeeps(s.mem, s.used, s.tags, table, i, next, r, p);
      }
    }

    /** One level of the descent: follow the word, or hang an erased table on it. */
    method Descend(table: nat, i: nat) returns (ok: bool, next: nat)
      requires Valid() && table in tags && |tags[table].path| < 3 && i in tags[table].slots
      modifies this`mem, this`used, this`tags
      ensures !ok ==> Exhausted()
      ensures ok ==> Valid() && Evolves(old(Now()), Now())
      ensures ok ==> SameTranslations(old(Now()), Now())
      ensures ok ==> next in tags && tags[next].root == old(tags)[table].root
      ensures ok ==> tags[next].path == old(tags)[table].path + [i]
      ensures ok ==> HasWord(mem, table) && NoNewEmptyBut(old(Now()), Now(), next)
    {
      assert TagOk(used, tags, table) && Leads(mem, used, tags, table, i);
      if mem[table][i] == 0 {
        ok, next := LinkNew(table, i);
        if !ok { return; }
        assert mem[table][i] != 0 && HasWord(mem, table);
        EmptyOnlyAt(old(Now()), Now(), table, next);
      } else {
        next := FrameOf(mem[table][i]);
        ok := true;
        assert HasWord(mem, table);
      }
    }

    method DescendFor(page: nat, table: nat, i: nat, ghost s0: Snap, ghost root: nat, ghost k: nat)
      returns (ok: bool, next: nat)
      requires Valid() && k < 3 && Descended(s0, Now(), root, page, k, table) && i == PathOf(page)[k]
      modifies this`mem, this`used, this`tags
      ensures !ok ==> Exhausted()
      ensures ok ==> Valid() && Descended(s0, Now(), root, page, k + 1, next)
    {
      ghost var s1 := Now();
      ok, next := Descend(table, i);
      if ok { DescentGoesOn(s0, s1, Now(), root, page, k, table, next); }
    }

    method ReachL1(l4: nat, page: nat) returns (ok: bool, l1: nat)
      requires Valid() && Governed(tags, l4, page)
      modifies this`mem, this`used, this`tags
      ensures !ok ==> Exhausted()
      ensures ok ==> Valid() && Descended(old(Now()), Now(), l4, page, 3, l1)
    {
      ghost var s0 := Now();
      var path := PathOf(page);
      DescentBegins(s0, l4, page);
      var l3, l2;
      l1 := 0;
      ok, l3 := DescendFor(page, l4, path[0], s0, l4, 0);
      if !ok { return; }
      ok, l2 := DescendFor(page, l3, path[1], s0, l4, 1);
      if !ok { return; }
      ok, l1 := DescendFor(page, l2, path[2], s0, l4, 2);
    }

    /** The last level: give the page a frame unless it has one. */
    method MapLeaf(l1: nat, page: nat) returns (ok: bool, phys: nat)
      requires Valid() && l1 in tags && Governed(tags, tags[l1].root, page) && tags[l1].path == PathOf(page)[..3]
      modifies this`mem, this`used, this`tags
      ensures !ok ==> Exhausted()
      ensures ok ==> Valid() && tags == old(tags) && Evolves(old(Now()), Now())
      ensures ok ==> SameOutside(old(Now()), Now(), tags[l1].root, page, page + 1)
      ensures ok ==> GivesPage(old(Now()), Now(), tags[l1].root, page, phys)
      ensures ok ==> forall f | f in tags && f != l1 && f < |old(mem)| :: f < |mem| && mem[f] == old(mem)[f]
      ensures ok ==> HasWord(mem, l1) && NoNewEmpty(old(Now()), Now())
    {
      var i := PathOf(page)[3];
      ghost var root := tags[l1].root;
      assert PathOf(page) == tags[l1].path + [i];
      assert TagOk(used, tags, l1) && Leads(mem, used, tags, l1, i);
      WalkPassesTable(mem, used, tags, l1, [i]);
      phys := 0;
      if mem[l1][i] == 0 {
        ghost var mem0, used0 := mem, used;
        var d;
        ok, d := GetFreeBlock();
        if !ok {
          return;
        }
        FreeIsNoTable(mem0, used0, tags, d);
        MarkUsedIsSound(mem0, used0, tags, d);
        LeafWriteIsSound(mem0, used, tags, l1, i, MakeEntry(d, FLAGS));
        FreshIsNamedOnce(mem0, used0, tags, l1, i, d, page);
        mem := Poke(mem, l1, i, MakeEntry(d, FLAGS));
        phys := d * 4096;
        forall r: nat, p: nat | Governed(tags, r, p)
          ensures Translate(mem, r, p) == if r == root && p == page then MakeEntry(d, FLAGS) else Translate(mem0, r, p)
        {
          LeafWriteMoves(mem0, used, tags, l1, i, MakeEntry(d, FLAGS), r, p);
          if PathOf(p) == PathOf(page) { PathIsUnique(p, page); }
        }
        assert mem[l1][i] != 0 && HasWord(mem, l1);
        EmptyOnlyAt(old(Now()), Now(), l1, l1);
      } else {
        ok := true;
        assert HasWord(mem, l1);
      }
    }

    /** `increase_paging_of_process_with_virt_addr`. The returned address is meaningless when the page was mapped. */
    method Increase(pid: nat, addr: nat) returns (ok: bool, phys: nat)
      requires Valid() && pid in cr3 && Governed(tags, cr3[pid], addr / 4096)
      modifies this`mem, this`used, this`tags
      ensures !ok ==> Exhausted()
      ensures ok ==> Valid() && Evolves(old(Now()), Now())
      ensures ok ==> SameOutside(old(Now()), Now(), cr3[pid], addr / 4096, addr / 4096 + 1)
      ensures ok ==> GivesPage(old(Now()), Now(), cr3[pid], addr / 4096, phys)
      ensures ok ==> NoNewEmpty(old(Now()), Now())
    {
      var l1;
      phys := 0;
      ok, l1 := ReachL1(cr3[pid], addr / 4096);
      if !ok { return; }
      ghost var s1 := Now();
      ok, phys := MapLeaf(l1, addr / 4096);
      if !ok { return; }
      ghost var root, page := cr3[pid], addr / 4096;
      MapEnds(old(Now()), s1, Now(), root, page, phys);
      EmptyFilled(old(Now()), s1, Now(), l1);
    }

    /** `is_paged`. Words outside physical memory read as zero. */
    method IsPaged(pid: nat, addr: nat) returns (paged: bool)
      requires pid in cr3
      ensures paged <==> Translate(mem, cr3[pid], addr / 4096) != 0
    {
      var path := PathOf(addr / 4096);
      var l4 := cr3[pid];
      var word := Load(mem, l4, path[0]);
      if word == 0 { return false; }
      var l3 := FrameOf(word);
      assert Walk(mem, l4, path) == Walk(mem, l3, path[1..]);
      word := Load(mem, l3, path[1]);
      if word == 0 { return false; }
      var l2 := FrameOf(word);
      assert path[1..][1..] == path[2..];
      assert Walk(mem, l4, path) == Walk(mem, l2, path[2..]);
      word := Load(mem, l2, path[2]);
      if word == 0 { return false; }
      var l1 := FrameOf(word);
      assert path[2..][1..] == path[3..];
      assert Walk(mem, l4, path) == Walk(mem, l1, path[3..]);
      word := Load(mem, l1, path[3]);
      return word != 0;
    }

    method BlockEmpty(f: nat) returns (empty: bool)
      requires f < |mem| && |mem[f]| == ENTRIES
      ensures empty <==> !HasWord(mem, f)
    {
      for i := 0 to ENTRIES
        invariant forall j | 0 <= j < i :: mem[f][j] == 0
      {
        if mem[f][i] != 0 {
          return false;
        }
      }
      return true;
    }

    /** Cut an emptied table off its parent. */
    method Prune(f: nat, up: nat, i: nat)
      requires Valid() && f in tags && f < |mem| && !HasWord(mem, f)
      requires up in tags && tags[up].root == tags[f].root && tags[f].path == tags[up].path + [i]
      modifies this`mem, this`tags
      ensures Valid() && Evolves(old(Now()), Now())
      ensures SameTranslations(old(Now()), Now())
      ensures tags == old(tags) - {f} && up in tags
      ensures NoNewEmptyBut(old(Now()), Now(), up)
    {
      ghost var mem0, tags0 := mem, tags;
      assert TagOk(used, tags, f) && Referred(mem, tags, f) && TagOk(used, tags, up);
      assert tags[f].path[..|tags[up].path|] == tags[up].path && Separate(tags, up, tags[f].parent);
      UnlinkIsSound(mem, used, tags, f);
      mem := Poke(mem, up, i, 0);
      tags := tags - {f};
      assert mem == Unlinked(mem0, used, tags0, f);
      forall r: nat, p: nat | Governed(tags0, r, p)
        ensures Governed(tags, r, p) && Translate(mem, r, p) == Translate(mem0, r, p)
      {
        UnlinkKeeps(mem0, used, tags0, f, r, p);
      }
      EmptyOnlyAt(old(Now()), Now(), up, up);
    }

    /** Clear the leaf word of a mapped page. */
    method ClearLeaf(l1: nat, page: nat)
      requires Valid() && l1 in tags && Governed(tags, tags[l1].root, page) && tags[l1].path == PathOf(page)[..3]
      modifies this`mem
      ensures Valid() && Evolves(old(Now()), Now())
      ensures SameOutside(old(Now()), Now(), tags[l1].root, page, page + 1)
      ensures Translate(mem, tags[l1].root, page) == 0
      ensures NoNewEmptyBut(old(Now()), Now(), l1)
    {
      var i := PathOf(page)[3];
      ghost var mem0 := mem;
      assert PathOf(page) == tags[l1].path + [i];
      assert TagOk(used, tags, l1) && Leads(mem, used, tags, l1, i);
      LeafWriteIsSound(mem, used, tags, l1, i, 0);
      mem := Poke(mem, l1, i, 0);
      forall r: nat, p: nat | Governed(tags, r, p)
        ensures Translate(mem, r, p) == if r == tags[l1].root && p == page then 0 else Translate(mem0, r, p)
      {
        LeafWriteMoves(mem0, used, tags, l1, i, 0, r, p);
        if PathOf(p) == PathOf(page) { PathIsUnique(p, page); }
      }
      EmptyOnlyAt(old(Now()), Now(), l1, l1);
    }

    /** The tail of the unmap: clear the word, then cut off whatever became empty, upward. */
    method ClearAndPrune(l4: nat, l3: nat, l2: nat, l1: nat, page: nat)
      requires Valid() && Governed(tags, l4, page)
      requires l1 in tags && tags[l1].root == l4 && tags[l1].path == PathOf(page)[..3]
      requires l2 in tags && tags[l2].root == l4 && tags[l2].path == PathOf(page)[..2]
      requires l3 in tags && tags[l3].root == l4 && tags[l3].path == PathOf(page)[..1]
      modifies this`mem, this`tags
      ensures Valid() && Evolves(old(Now()), Now())
      ensures SameOutside(old(Now()), Now(), l4, page, page + 1)
      ensures Translate(mem, l4, page) == 0
      ensures NoNewEmpty(old(Now()), Now())
    {
      var path := PathOf(page);
      assert TagOk(used, tags, l1) && TagOk(used, tags, l2) && TagOk(used, tags, l3) && TagOk(used, tags, l4);
      assert path[..3] == path[..2] + [path[2]] && path[..2] == path[..1] + [path[1]] && path[..1] == [] + [path[0]];
      ClearLeaf(l1, page);
      ghost var s1 := Now();
      var empty := BlockEmpty(l1);
      if !empty {
        NoneLeft(old(Now()), Now(), l1);
        return;
      }
      Prune(l1, l2, path[2]);
      EvolvesTransitively(old(Now()), s1, Now());
      EmptyMovesUp(old(Now()), s1, Now(), l1, l2);
      ghost var s2 := Now();
      empty := BlockEmpty(l2);
      if !empty {
        NoneLeft(old(Now()), Now(), l2);
        return;
      }
      Prune(l2, l3, path[1]);
      EvolvesTransitively(old(Now()), s2, Now());
      EmptyMovesUp(old(Now()), s2, Now(), l2, l3);
      ghost var s3 := Now();
      empty := BlockEmpty(l3);
      if !empty {
        NoneLeft(old(Now()), Now(), l3);
        return;
      }
      Prune(l3, l4, path[0]);
      EvolvesTransitively(old(Now()), s3, Now());
      EmptyMovesUp(old(Now()), s3, Now(), l3, l4);
      NoneLeft(old(Now()), Now(), l4);
    }

    /** `decrease_paging_of_process_with_virt_addr`, without its writes to the memory map. */
    method Decrease(pid: nat, addr: nat)
      requires Valid() && pid in cr3 && Governed(tags, cr3[pid], addr / 4096)
      modifies this`mem, this`tags
      ensures Valid() && Evolves(old(Now()), Now())
      ensures SameOutside(old(Now()), Now(), cr3[pid], addr / 4096, addr / 4096 + 1)
      ensures Translate(mem, cr3[pid], addr / 4096) == 0
      ensures NoNewEmpty(old(Now()), Now())
    {
      var page := addr / 4096;
      var path := PathOf(page);
      var l4 := cr3[pid];
      assert TagOk(used, tags, l4);
      StepDown(mem, used, tags, l4, page);
      if mem[l4][path[0]] == 0 { return; }
      var l3 := FrameOf(mem[l4][path[0]]);
      StepDown(mem, used, tags, l3, page);
      if mem[l3][path[1]] == 0 { return; }
      var l2 := FrameOf(mem[l3][path[1]]);
      StepDown(mem, used, tags, l2, page);
      if mem[l2][path[2]] == 0 { return; }
      var l1 := FrameOf(mem[l2][path[2]]);
      StepDown(mem, used, tags, l1, page);
      if mem[l1][path[3]] == 0 { return; }
      ClearAndPrune(l4, l3, l2, l1, page);
    }
  }
}
