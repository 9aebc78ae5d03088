/** Many creates in one directory (core/filesytem/fat32.h): each file keeps the entry it was given. */
module FatDirectory {
  import opened Fifo
  import opened FatChains
  import opened FatVolume

  // ----- A directory as a list of entries -----

  ghost predicate Has(flat: seq<byte>, n: nat) {
    32 * n + 32 <= |flat|
  }

  ghost function EntryAt(flat: seq<byte>, n: nat): (e: seq<byte>)
    requires Has(flat, n)
    ensures |e| == 32
  {
    flat[32 * n..32 * n + 32]
  }

  /** The entry is there for good: a later create does not take its slot. */
  ghost predicate InUse(flat: seq<byte>, n: nat) {
    Has(flat, n) && EntryAt(flat, n)[0] != 0 && EntryAt(flat, n)[0] != 0xE5
  }

  /** One entry of `flat` became `entry`, possibly one behind the end; the others that are there stayed. */
  ghost predicate OnePut(flat: seq<byte>, flat': seq<byte>, n: nat, entry: seq<byte>) {
    && |flat'| >= |flat| && Has(flat', n) && EntryAt(flat', n) == entry && !InUse(flat, n)
    && forall m: nat {:trigger Has(flat, m)} | Has(flat, m) && m != n :: EntryAt(flat', m) == EntryAt(flat, m)
  }

  /** The number of the entry a create puts in. */
  ghost function Number(ch: seq<nat>, blank: nat, k: nat, slot: nat): nat {
    if blank == 0 then 128 * k + slot else 128 * |ch|
  }

  lemma PutInside(flat: seq<byte>, flat': seq<byte>, n: nat, pos: nat, entry: seq<byte>)
    requires |entry| == 32 && pos == 32 * n && pos + 32 <= |flat| && flat' == flat[..pos] + entry + flat[pos + 32..]
    requires flat[pos] == 0 || flat[pos] == 0xE5
    ensures OnePut(flat, flat', n, entry)
  {
    assert EntryAt(flat', n) == entry && EntryAt(flat, n)[0] == flat[pos];
    forall m: nat | Has(flat, m) && m != n ensures EntryAt(flat', m) == EntryAt(flat, m) {
      assert 32 * m + 32 <= pos || pos + 32 <= 32 * m;
    }
  }

  lemma PutBehind(flat: seq<byte>, flat': seq<byte>, n: nat, entry: seq<byte>, rest: seq<byte>)
    requires |entry| == 32 && |flat| == 32 * n && flat' == flat + entry + rest
    ensures OnePut(flat, flat', n, entry)
  {
    assert EntryAt(flat', n) == entry;
    forall m: nat | Has(flat, m) && m != n ensures EntryAt(flat', m) == EntryAt(flat, m) {}
  }

  /** What a create does to its directory's list. */
  lemma CreatePutsOne(data: seq<seq<byte>>, data': seq<seq<byte>>, ch: seq<nat>, ch': seq<nat>, blank: nat, k: nat,
                      slot: nat, entry: seq<byte>, n: nat)
    requires Stored(data, ch) && |entry| == 32 && ParentHolds(data, data', ch, blank, k, slot, entry)
    requires blank == 0 ==> FirstUnused(data, ch, k, slot)
    requires ch' == (if blank == 0 then ch else ch + [blank]) && n == Number(ch, blank, k, slot)
    ensures Stored(data', ch') && OnePut(Flat(data, ch), Flat(data', ch'), n, entry)
  {
    var flat := Flat(data, ch);
    if blank == 0 {
      var pos := k * CLUSTER_SIZE + slot * DIRENT;
      FlatSlice(data, ch, k, slot * DIRENT, 1);
      assert flat[pos] == flat[pos..pos + 1][0] == data[ch[k]][slot * DIRENT];
      PutInside(flat, Flat(data', ch'), n, pos, entry);
    } else {
      PutBehind(flat, Flat(data', ch'), n, entry, Zeros(CLUSTER_SIZE - DIRENT));
    }
  }

  /** The new entry's slot is taken exactly when the name does not begin with one of the two marks of an unused slot;
      otherwise the next create overwrites it. */
  lemma SlotTakenExactly(flat: seq<byte>, flat': seq<byte>, n: nat, entry: seq<byte>, name: seq<byte>, attr: byte,
                         start: nat)
    requires OnePut(flat, flat', n, entry) && ReadsAs(entry, name, attr, start) && |name| == 11
    ensures InUse(flat', n) <==> name[0] != 0 && name[0] != 0xE5
  {
    assert entry[0] == entry[..11][0];
  }

  // ----- A sequence of creates -----

  /** A file made: its name, attribute and first cluster, and the number of its entry. */
  datatype Made = Made(name: seq<byte>, attr: byte, start: nat, at: nat)

  ghost predicate Listed(flat: seq<byte>, m: Made) {
    InUse(flat, m.at) && ReadsAs(EntryAt(flat, m.at), m.name, m.attr, m.start)
  }

  /** Every file made is listed, each under a number of its own; and what was in use before is as it was. */
  ghost predicate AllListed(flat0: seq<byte>, flat: seq<byte>, made: seq<Made>) {
    && |flat| >= |flat0|
    && (forall j | 0 <= j < |made| :: Listed(flat, made[j]) && !InUse(flat0, made[j].at))
    && (forall i, j | 0 <= i < j < |made| :: made[i].at != made[j].at)
    && forall n: nat {:trigger InUse(flat0, n)} | InUse(flat0, n) ::
         Has(flat, n) && EntryAt(flat, n) == EntryAt(flat0, n)
  }

  lemma OneMoreListed(flat0: seq<byte>, flat: seq<byte>, flat': seq<byte>, made: seq<Made>, m: Made, entry: seq<byte>)
    requires AllListed(flat0, flat, made) && OnePut(flat, flat', m.at, entry) && ReadsAs(entry, m.name, m.attr, m.start)
    requires |m.name| == 11 && m.name[0] != 0 && m.name[0] != 0xE5
    ensures AllListed(flat0, flat', made + [m])
  {
    assert entry[0] == entry[..11][0] == m.name[0];
    assert InUse(flat0, m.at) ==> InUse(flat, m.at);
    forall j | 0 <= j < |made| ensures Listed(flat', made[j]) && made[j].at != m.at {
      assert Listed(flat, made[j]) && Has(flat, made[j].at);
    }
    forall n: nat | InUse(flat0, n) ensures Has(flat', n) && EntryAt(flat', n) == EntryAt(flat0, n) {
      assert Has(flat, n) && EntryAt(flat, n) == EntryAt(flat0, n) && n != m.at;
    }
  }

  ghost function FreeClusters(fat: Fat): set<nat> {
    set c: nat | 2 <= c < |fat| && NextOf(fat, c) == 0
  }

  lemma FreeLeft(fat: Fat, fat': Fat, b: nat, c: nat)
    requires StillFree(fat, fat', b, c)
    ensures |FreeClusters(fat')| + 2 >= |FreeClusters(fat)|
  {
    var was, now := FreeClusters(fat), FreeClusters(fat');
    SubsetSize(was, now + {b, c});
    SubsetSize(now + {b, c}, now + {b, c});
    assert |now + {b, c}| <= |now| + |{b, c}|;
  }

  lemma {:induction false} SubsetSize(a: set<nat>, b: set<nat>)
    requires a <= b
    ensures |a| <= |b|
  {
    if a != {} {
      var x :| x in a;
      SubsetSize(a - {x}, b - {x});
    }
  }

  lemma TwoFree(fat: Fat) returns (f: nat, g: nat)
    requires |FreeClusters(fat)| >= 2
    ensures 2 <= f < g < |fat| && NextOf(fat, f) == 0 && NextOf(fat, g) == 0
  {
    var free := FreeClusters(fat);
    var x :| x in free;
    assert |free - {x}| == |free| - 1;
    var y :| y in free - {x};
    f, g := if x < y then x else y, if x < y then y else x;
  }

  ghost predicate DirectoryAfter(data0: seq<seq<byte>>, ch0: seq<nat>, data: seq<seq<byte>>, ch: seq<nat>,
                                 made: seq<Made>) {
    Stored(data0, ch0) && Stored(data, ch) && ch0 <= ch && AllListed(Flat(data0, ch0), Flat(data, ch), made)
  }

  lemma DirectoryOneMore(data0: seq<seq<byte>>, ch0: seq<nat>, data: seq<seq<byte>>, ch: seq<nat>,
                         data': seq<seq<byte>>, ch': seq<nat>, made: seq<Made>, m: Made, blank: nat, k: nat, slot: nat,
                         entry: seq<byte>)
    requires DirectoryAfter(data0, ch0, data, ch, made) && ReadsAs(entry, m.name, m.attr, m.start)
    requires ParentHolds(data, data', ch, blank, k, slot, entry) && (blank == 0 ==> FirstUnused(data, ch, k, slot))
    requires ch' == (if blank == 0 then ch else ch + [blank]) && m.at == Number(ch, blank, k, slot)
    requires |m.name| == 11 && m.name[0] != 0 && m.name[0] != 0xE5
    ensures DirectoryAfter(data0, ch0, data', ch', made + [m])
  {
    CreatePutsOne(data, data', ch, ch', blank, k, slot, entry, m.at);
    OneMoreListed(Flat(data0, ch0), Flat(data, ch), Flat(data', ch'), made, m, entry);
  }

  /** The volume after `made`, with the chains it started from: directory `i` lists all of them, each new file has a
      chain of its own, and every other file is as it was. */
  ghost predicate After(data0: seq<seq<byte>>, chains0: seq<seq<nat>>, data: seq<seq<byte>>, chains: seq<seq<nat>>,
                        i: nat, made: seq<Made>) {
    && i < |chains0| && |chains| == |chains0| + |made| && DirectoryAfter(data0, chains0[i], data, chains[i], made)
    && (forall j | 0 <= j < |chains0| && j != i :: chains[j] == chains0[j] && SameFile(data0, data, chains0[j]))
    && (forall j | |chains0| <= j < |chains| :: chains[j] == [made[j - |chains0|].start])
  }

  lemma AfterOneMore(data0: seq<seq<byte>>, chains0: seq<seq<nat>>, data: seq<seq<byte>>, chains: seq<seq<nat>>,
                     data': seq<seq<byte>>, chains': seq<seq<nat>>, i: nat, made: seq<Made>, m: Made, blank: nat)
    requires After(data0, chains0, data, chains, i, made) && OthersSame(data, data', chains, i)
    requires chains' == Grown(chains, i, blank) + [[m.start]]
    requires DirectoryAfter(data0, chains0[i], data', chains'[i], made + [m])
    ensures After(data0, chains0, data', chains', i, made + [m])
  {
    forall j | 0 <= j < |chains0| && j != i ensures chains'[j] == chains0[j] && SameFile(data0, data', chains0[j]) {
      assert SameFile(data, data', chains[j]);
    }
  }

  ghost predicate MadeFrom(made: seq<Made>, names: seq<(seq<byte>, bool)>) {
    && |made| <= |names|
    && forall j | 0 <= j < |made| :: made[j].name == names[j].0 && made[j].attr == if names[j].1 then 0x10 else 0x20
  }

  /** Any number of creates in one directory with enough free clusters: every file made is listed with its own name,
      attribute and first cluster, under a number of its own; no entry that was in use changes, and no other file. */
  method CreateAll(v: Volume, first: nat, names: seq<(seq<byte>, bool)>, ghost chains0: seq<seq<nat>>, ghost i: nat)
    returns (ghost made: seq<Made>, ghost chains: seq<seq<nat>>)
    requires v.Holds(chains0) && i < |chains0| && first == chains0[i][0]
    requires |FreeClusters(v.fats[0])| >= 2 * |names|
    requires forall j | 0 <= j < |names| ::
               |names[j].0| == 11 && names[j].0[0] != 0 && names[j].0[0] != 0xE5
    modifies v`fats, v`data
    ensures v.Holds(chains) && After(old(v.data), chains0, v.data, chains, i, made) && |made| == |names|
    ensures MadeFrom(made, names)
  {
    made, chains := [], chains0;
    assert IsChain(v.fats[0], chains0[i]);
    StartsListed(v.data, v.fats[0], chains0, i);
    for n := 0 to |names|
      invariant v.Holds(chains) && |made| == n && After(old(v.data), chains0, v.data, chains, i, made)
      invariant first == chains[i][0] && |FreeClusters(v.fats[0])| >= 2 * (|names| - n)
      invariant MadeFrom(made, names)
    {
      made, chains := CreateNext(v, first, names[n].0, names[n].1, old(v.data), chains0, chains, i, made);
    }
  }

  method CreateNext(v: Volume, first: nat, name: seq<byte>, isDir: bool, ghost data0: seq<seq<byte>>,
                    ghost chains0: seq<seq<nat>>, ghost chains: seq<seq<nat>>, ghost i: nat, ghost made: seq<Made>)
    returns (ghost made': seq<Made>, ghost chains': seq<seq<nat>>)
    requires v.Holds(chains) && After(data0, chains0, v.data, chains, i, made) && first == chains[i][0]
    requires |name| == 11 && name[0] != 0 && name[0] != 0xE5 && |FreeClusters(v.fats[0])| >= 2
    modifies v`fats, v`data
    ensures v.Holds(chains') && After(data0, chains0, v.data, chains', i, made') && first == chains'[i][0]
    ensures |FreeClusters(v.fats[0])| + 2 >= |FreeClusters(old(v.fats)[0])|
    ensures |made'| == |made| + 1 && made'[..|made|] == made
    ensures made'[|made|].name == name && made'[|made|].attr == if isDir then 0x10 else 0x20
  {
    ghost var data, fat := v.data, v.fats[0];
    assert IsChain(fat, chains[i]);
    ghost var f, g := TwoFree(fat);
    var start, blank, entry;
    ghost var k, slot;
    start, blank, entry, k, slot := v.Create(first, name, isDir, chains, i, f, g);
    ghost var m := Made(name, if isDir then 0x10 else 0x20, start, Number(chains[i], blank, k, slot));
    made', chains' := made + [m], Grown(chains, i, blank) + [[start]];
    DirectoryOneMore(data0, chains0[i], data, chains[i], v.data, chains'[i], made, m, blank, k, slot, entry);
    AfterOneMore(data0, chains0, data, chains, v.data, chains', i, made, m, blank);
    FreeLeft(fat, v.fats[0], start, blank);
  }

  lemma StartsListed(data: seq<seq<byte>>, fat: Fat, chains: seq<seq<nat>>, i: nat)
    requires Chains(fat, chains) && i < |chains| && |data| == |fat|
    requires forall x | 0 <= x < |data| :: |data[x]| == CLUSTER_SIZE
    ensures After(data, chains, data, chains, i, [])
  {
    forall j | 0 <= j < |chains| ensures Stored(data, chains[j]) {
      assert IsChain(fat, chains[j]);
      assert forall k | 0 <= k < |chains[j]| :: InRange(fat, chains[j][k]);
    }
  }
}
