/** A mounted FAT32 partition: the copies of the table, sector by sector, and the clusters' bytes. */
module FatVolume {
  import opened Arithmetic
  import opened Fifo
  import opened FatChains

  const PER_SECTOR := 128      // entries in a 512-byte sector
  const CLUSTER_SIZE := 4096

  /** A sector written whole: the entries of sector `sec` come from `src`. */
  function SectorWritten(fat: Fat, src: Fat, sec: nat): (r: Fat)
    requires |src| == |fat|
    ensures |r| == |fat| && forall e | 0 <= e < |fat| :: r[e] == if e / PER_SECTOR == sec then src[e] else fat[e]
  {
    seq(|fat|, e requires 0 <= e < |fat| => if e / PER_SECTOR == sec then src[e] else fat[e])
  }

  /** The boot sector as 128 words, laid over any sector of a table. */
  function Repeated(boot: seq<nat>, n: nat): (r: Fat)
    requires |boot| == PER_SECTOR
    ensures |r| == n && forall e | 0 <= e < n :: r[e] == boot[e % PER_SECTOR]
  {
    seq(n, e requires 0 <= e < n => boot[e % PER_SECTOR])
  }

  /** Every mirror has the primary's entries in sector `sec`. */
  ghost predicate Mirrored(fats: seq<Fat>, sec: nat)
    requires |fats| > 0
  {
    forall m, e | 0 <= m < |fats| && 0 <= e < |fats[m]| && e < |fats[0]| && e / PER_SECTOR == sec ::
        fats[m][e] == fats[0][e]
  }

  /** Sectors that were mirrored still are. */
  ghost predicate MirrorsKept(fats: seq<Fat>, fats': seq<Fat>) {
    |fats| == |fats'| > 0 && forall sec: nat {:trigger Mirrored(fats', sec)} | Mirrored(fats, sec) ::
        Mirrored(fats', sec)
  }

  /** `fat32_set_fat_entry` mirrors the sector it touches and keeps the others as they were. */
  lemma EntryIsMirrored(fats: seq<Fat>, fats': seq<Fat>, c: nat, value: nat)
    requires |fats| == |fats'| > 0 && (forall m | 0 <= m < |fats| :: |fats[m]| == |fats[0]|) && c < |fats[0]|
    requires fats'[0] == fats[0][c := value]
    requires forall m | 0 <= m < |fats| :: fats'[m] == SectorWritten(fats[m], fats'[0], c / PER_SECTOR)
    ensures Mirrored(fats', c / PER_SECTOR) && MirrorsKept(fats, fats')
  {
    forall sec: nat | Mirrored(fats, sec) ensures Mirrored(fats', sec) {
      forall m, e | 0 <= m < |fats'| && 0 <= e < |fats'[m]| && e < |fats'[0]| && e / PER_SECTOR == sec
        ensures fats'[m][e] == fats'[0][e]
      {
        assert fats'[m] == SectorWritten(fats[m], fats'[0], c / PER_SECTOR);
        assert fats[m][e] == fats[0][e];
      }
    }
  }

  lemma MirrorsKeptChains(a: seq<Fat>, b: seq<Fat>, c: seq<Fat>)
    requires MirrorsKept(a, b) && MirrorsKept(b, c)
    ensures MirrorsKept(a, c)
  {
    forall sec: nat | Mirrored(a, sec) ensures Mirrored(c, sec) {
      assert Mirrored(b, sec);
    }
  }

  /** The first `k` clusters of a chain have their sectors mirrored. */
  ghost predicate ChainMirrored(fats: seq<Fat>, ch: seq<nat>, k: nat)
    requires |fats| > 0 && k <= |ch|
  {
    forall j | 0 <= j < k :: Mirrored(fats, ch[j] / PER_SECTOR)
  }

  /** What `fat_set_entry` leaves in the mirrors: the boot sector in place of sector `sec`. */
  ghost predicate BootWritten(before: seq<Fat>, fats: seq<Fat>, boot: seq<nat>, sec: nat) {
    && |boot| == PER_SECTOR && |fats| == |before| > 0
    && forall m | 1 <= m < |fats| :: fats[m] == SectorWritten(before[m], Repeated(boot, |before[m]|), sec)
  }

  ghost predicate IsBoot(fat: Fat, boot: seq<nat>, sec: nat)
    requires |boot| == PER_SECTOR
  {
    forall e | 0 <= e < |fat| && e / PER_SECTOR == sec :: fat[e] == boot[e % PER_SECTOR]
  }

  /** After that the mirrors agree with the primary exactly when the primary's sector happens to be the boot sector. */
  lemma MirrorAgreesExactly(before: seq<Fat>, fats: seq<Fat>, boot: seq<nat>, sec: nat)
    requires BootWritten(before, fats, boot, sec) && forall m | 0 <= m < |fats| :: |fats[m]| == |fats[0]|
    ensures Mirrored(fats, sec) <==> |fats| == 1 || IsBoot(fats[0], boot, sec)
  {
    forall m, e | 1 <= m < |fats| && 0 <= e < |fats[m]| && e / PER_SECTOR == sec
      ensures fats[m][e] == boot[e % PER_SECTOR]
    {
      assert fats[m] == SectorWritten(before[m], Repeated(boot, |before[m]|), sec);
    }
    if |fats| > 1 && Mirrored(fats, sec) {
      forall e | 0 <= e < |fats[0]| && e / PER_SECTOR == sec ensures fats[0][e] == boot[e % PER_SECTOR] {
        assert fats[1][e] == fats[0][e];
      }
    }
  }

  lemma SameMirrors(before: seq<Fat>, before': seq<Fat>, fats: seq<Fat>, boot: seq<nat>, sec: nat)
    requires BootWritten(before', fats, boot, sec) && |before| > 0 && before[1..] == before'[1..]
    ensures BootWritten(before, fats, boot, sec)
  {
    assert forall m | 1 <= m < |fats| :: before[m] == before[1..][m - 1] && before'[m] == before'[1..][m - 1];
  }

  lemma MirroredMore(fats: seq<Fat>, fats': seq<Fat>, ch: seq<nat>, k: nat)
    requires MirrorsKept(fats, fats') && k < |ch| && ChainMirrored(fats, ch, k) && Mirrored(fats', ch[k] / PER_SECTOR)
    ensures ChainMirrored(fats', ch, k + 1)
  {
    forall j | 0 <= j < k ensures Mirrored(fats', ch[j] / PER_SECTOR) {
      assert Mirrored(fats, ch[j] / PER_SECTOR);
    }
  }

  /** The free loop has zeroed the first `k` clusters of the chain, on every table. */
  ghost predicate Freeing(before: seq<Fat>, fats: seq<Fat>, ch: seq<nat>, k: nat) {
    && |before| == |fats| > 0 && IsChain(before[0], ch) && k <= |ch|
    && FreedPrefix(before[0], fats[0], ch, k) && MirrorsKept(before, fats) && ChainMirrored(fats, ch, k)
  }

  // ----- Files as flat byte arrays -----

  function ByteAt(data: seq<seq<byte>>, ch: seq<nat>, i: nat): byte
    requires i / CLUSTER_SIZE < |ch| && ch[i / CLUSTER_SIZE] < |data| && |data[ch[i / CLUSTER_SIZE]]| == CLUSTER_SIZE
  {
    data[ch[i / CLUSTER_SIZE]][i % CLUSTER_SIZE]
  }

  ghost predicate Stored(data: seq<seq<byte>>, ch: seq<nat>) {
    forall k | 0 <= k < |ch| :: ch[k] < |data| && |data[ch[k]]| == CLUSTER_SIZE
  }

  /** All bytes of a chain in order. */
  ghost function Flat(data: seq<seq<byte>>, ch: seq<nat>): (f: seq<byte>)
    requires Stored(data, ch)
    ensures |f| == |ch| * CLUSTER_SIZE
  {
    seq(|ch| * CLUSTER_SIZE, i requires 0 <= i < |ch| * CLUSTER_SIZE => ByteAt(data, ch, i))
  }

  /** A chain that shares no cluster with a written one keeps its bytes. */
  lemma FlatFrame(data: seq<seq<byte>>, data': seq<seq<byte>>, ch: seq<nat>)
    requires Stored(data, ch) && |data'| == |data| && forall k | 0 <= k < |ch| :: data'[ch[k]] == data[ch[k]]
    ensures Stored(data', ch) && Flat(data', ch) == Flat(data, ch)
  {}

  /** One cluster patched from `at` on: the flat array is patched at the same place. */
  lemma PatchCluster(data: seq<seq<byte>>, ch: seq<nat>, k: nat, at: nat, bytes: seq<byte>)
    requires Stored(data, ch) && k < |ch| && at + |bytes| <= CLUSTER_SIZE
    requires forall i, j | 0 <= i < j < |ch| :: ch[i] != ch[j]
    ensures var was := data[ch[k]];
            var data' := data[ch[k] := was[..at] + bytes + was[at + |bytes|..]];
            var pos := k * CLUSTER_SIZE + at;
            && Stored(data', ch) && pos + |bytes| <= |ch| * CLUSTER_SIZE
            && Flat(data', ch) == Flat(data, ch)[..pos] + bytes + Flat(data, ch)[pos + |bytes|..]
  {
    var was := data[ch[k]];
    var data', pos := data[ch[k] := was[..at] + bytes + was[at + |bytes|..]], k * CLUSTER_SIZE + at;
    assert (k + 1) * CLUSTER_SIZE <= |ch| * CLUSTER_SIZE;
    var want := Flat(data, ch)[..pos] + bytes + Flat(data, ch)[pos + |bytes|..];
    forall i | 0 <= i < |ch| * CLUSTER_SIZE ensures Flat(data', ch)[i] == want[i] {
      var q, r := i / CLUSTER_SIZE, i % CLUSTER_SIZE;
      assert i == q * CLUSTER_SIZE + r;
      if q != k { assert ch[q] != ch[k]; }
    }
  }

  lemma FlatSlice(data: seq<seq<byte>>, ch: seq<nat>, k: nat, at: nat, n: nat)
    requires Stored(data, ch) && k < |ch| && at + n <= CLUSTER_SIZE
    ensures k * CLUSTER_SIZE + at + n <= |ch| * CLUSTER_SIZE
    ensures Flat(data, ch)[k * CLUSTER_SIZE + at..k * CLUSTER_SIZE + at + n] == data[ch[k]][at..at + n]
  {
    assert (k + 1) * CLUSTER_SIZE <= |ch| * CLUSTER_SIZE;
    var part, whole := Flat(data, ch)[k * CLUSTER_SIZE + at..k * CLUSTER_SIZE + at + n], data[ch[k]][at..at + n];
    forall i | 0 <= i < n ensures part[i] == whole[i] {
      var x := k * CLUSTER_SIZE + at + i;
      assert x / CLUSTER_SIZE == k && x % CLUSTER_SIZE == at + i;
    }
  }

  /** A flat array with the first `w` bytes of `buf` written at `offset`. */
  ghost function Spliced(flat: seq<byte>, offset: nat, buf: seq<byte>, w: nat): (r: seq<byte>)
    requires offset + w <= |flat| && w <= |buf|
    ensures |r| == |flat|
  {
    seq(|flat|, i requires 0 <= i < |flat| => if offset <= i < offset + w then buf[i - offset] else flat[i])
  }

  lemma SpliceMore(flat: seq<byte>, offset: nat, buf: seq<byte>, w: nat, n: nat)
    requires offset + w + n <= |flat| && w + n <= |buf|
    ensures var s := Spliced(flat, offset, buf, w);
            s[..offset + w] + buf[w..w + n] + s[offset + w + n..] == Spliced(flat, offset, buf, w + n)
  {}

  /** What was read is what the chain holds from `base` on. */
  ghost predicate ReadSoFar(data: seq<seq<byte>>, ch: seq<nat>, base: nat, out: seq<byte>) {
    Stored(data, ch) && base + |out| <= |ch| * CLUSTER_SIZE && out == Flat(data, ch)[base..base + |out|]
  }

  /** Byte for byte: `out` is what the clusters of the chain hold from position `offset` on. */
  ghost predicate BytesOf(data: seq<seq<byte>>, ch: seq<nat>, offset: nat, out: seq<byte>) {
    && Stored(data, ch)
    && forall j | 0 <= j < |out| ::
         (offset + j) / 4096 < |ch| && out[j] == data[ch[(offset + j) / 4096]][(offset + j) % 4096]
  }

  lemma SliceByBytes(data: seq<seq<byte>>, ch: seq<nat>, offset: nat, out: seq<byte>)
    requires ReadSoFar(data, ch, offset, out)
    ensures BytesOf(data, ch, offset, out)
  {
    forall j | 0 <= j < |out|
      ensures (offset + j) / 4096 < |ch| && out[j] == data[ch[(offset + j) / 4096]][(offset + j) % 4096]
    {
      assert out[j] == Flat(data, ch)[offset + j];
    }
  }

  ghost predicate Unique(ch: seq<nat>) {
    forall i, j | 0 <= i < j < |ch| :: ch[i] != ch[j]
  }

  /** The first `w` bytes of `buf` have been written at `offset`, and nothing outside the chain. */
  ghost predicate WroteSoFar(before: seq<seq<byte>>, now: seq<seq<byte>>, ch: seq<nat>, offset: nat, buf: seq<byte>,
                             w: nat) {
    && |now| == |before| && Stored(before, ch) && Stored(now, ch) && offset + w <= |ch| * CLUSTER_SIZE && w <= |buf|
    && Flat(now, ch) == Spliced(Flat(before, ch), offset, buf, w)
    && forall c | 0 <= c < |now| && c !in ch :: now[c] == before[c]
  }

  /** The effect of a write on the chain of a file: the flat-array update, cut with -4 at the end of the chain, and
      refused with -2 beyond the end of the file. Nothing outside the chain changes. */
  ghost predicate Wrote(before: seq<seq<byte>>, now: seq<seq<byte>>, ch: seq<nat>, fileSize: nat, offset: nat,
                        buf: seq<byte>, result: int, newSize: nat) {
    && Stored(before, ch) && Stored(now, ch) && |now| == |before| && fileSize <= |ch| * CLUSTER_SIZE
    && (forall c | 0 <= c < |now| && c !in ch :: now[c] == before[c])
    && if offset > fileSize then result == -2 && newSize == fileSize && now == before
       else
         var cap := |ch| * CLUSTER_SIZE;
         && Flat(now, ch) == Spliced(Flat(before, ch), offset, buf, Min(|buf|, cap - offset))
         && if offset + |buf| <= cap
            then result == 0 && newSize == if offset + |buf| > fileSize then offset + |buf| else fileSize
            else result == -4 && newSize == fileSize
  }

  /** Byte for byte: positions `offset` to `offset + w` of the chain hold the bytes of `buf`, the others what they
      held. */
  ghost predicate BytesWritten(before: seq<seq<byte>>, now: seq<seq<byte>>, ch: seq<nat>, offset: nat, buf: seq<byte>,
                               w: nat) {
    && Stored(before, ch) && Stored(now, ch) && w <= |buf|
    && forall i {:trigger ch[i / 4096]} | 0 <= i < |ch| * 4096 ::
         now[ch[i / 4096]][i % 4096] ==
         if offset <= i < offset + w then buf[i - offset] else before[ch[i / 4096]][i % 4096]
  }

  lemma SplicedByBytes(before: seq<seq<byte>>, now: seq<seq<byte>>, ch: seq<nat>, offset: nat, buf: seq<byte>, w: nat)
    requires Stored(before, ch) && Stored(now, ch) && w <= |buf| && offset + w <= |ch| * CLUSTER_SIZE
    requires Flat(now, ch) == Spliced(Flat(before, ch), offset, buf, w)
    ensures BytesWritten(before, now, ch, offset, buf, w)
  {
    forall i | 0 <= i < |ch| * 4096
      ensures now[ch[i / 4096]][i % 4096] ==
              if offset <= i < offset + w then buf[i - offset] else before[ch[i / 4096]][i % 4096]
    {
      assert now[ch[i / 4096]][i % 4096] == Flat(now, ch)[i] && before[ch[i / 4096]][i % 4096] == Flat(before, ch)[i];
    }
  }

  lemma NothingWritten(data: seq<seq<byte>>, ch: seq<nat>, offset: nat, buf: seq<byte>)
    requires Stored(data, ch) && offset <= |ch| * CLUSTER_SIZE
    ensures WroteSoFar(data, data, ch, offset, buf, 0)
  {
    assert Flat(data, ch) == Spliced(Flat(data, ch), offset, buf, 0);
  }

  // ----- Directory entries inside a chain -----

  const DIRENT := 32
  const DELETED: byte := 0xE5

  /** The fields of a directory entry for an empty file, as the structure lays them out: name, attribute, time stamps,
      the two halves of the first cluster, and a size of zero. */
  ghost predicate ReadsAs(e: seq<byte>, name: seq<byte>, attr: byte, first: nat) {
    && |e| == 32 && e[..11] == name && e[11] == attr && e[28..32] == [0, 0, 0, 0]
    && e[12] == 0 && e[13] == 0x44 && e[14] == 0x1a && e[15] == 0x9c && e[16] == 0x13 && e[17] == 0x5b
    && e[18] == 0x13 && e[19] == 0x5b && e[22] == 0x33 && e[23] == 0x9c && e[24] == 0x13 && e[25] == 0x5b
    && e[26] as int + 256 * e[27] as int + 65536 * e[20] as int + 16777216 * e[21] as int == first
  }

  /** A directory entry as create writes it, with its fixed time stamps. */
  function MakeDirent(name: seq<byte>, attr: byte, first: nat): (e: seq<byte>)
    requires |name| == 11
    ensures |e| == DIRENT
  {
    var hi, lo := first / 65536, first % 65536;
    name + [attr, 0, 0x44, 0x1a, 0x9c, 0x13, 0x5b, 0x13, 0x5b, hi % 256, hi / 256 % 256,
            0x33, 0x9c, 0x13, 0x5b, lo % 256, lo / 256, 0, 0, 0, 0]
  }

  /** The first cluster a directory entry names. */
  function FirstCluster(e: seq<byte>): nat
    requires |e| == DIRENT
  {
    var hi: nat, lo: nat := e[20] as int + 256 * e[21] as int, e[26] as int + 256 * e[27] as int;
    hi * 65536 + lo
  }

  lemma ClusterBytes(first: nat, hi: nat, lo: nat)
    requires hi == first / 65536 && lo == first % 65536 && first < 0x1_0000_0000
    ensures lo % 256 + 256 * (lo / 256) + 65536 * (hi % 256) + 16777216 * (hi / 256 % 256) == first
  {
    assert hi / 256 < 256;
  }

  lemma DirentReads(name: seq<byte>, attr: byte, first: nat, e: seq<byte>)
    requires |name| == 11 && first < 0x1_0000_0000 && e == MakeDirent(name, attr, first)
    ensures ReadsAs(e, name, attr, first)
  {
    var hi, lo := first / 65536, first % 65536;
    ClusterBytes(first, hi, lo);
    DirentFields(name, attr, hi % 256, hi / 256 % 256, lo % 256, lo / 256, e);
  }

  lemma DirentFields(name: seq<byte>, attr: byte, h: byte, hh: byte, l: byte, ll: byte, e: seq<byte>)
    requires |name| == 11 && |e| == 32
    requires e == name + [attr, 0, 0x44, 0x1a, 0x9c, 0x13, 0x5b, 0x13, 0x5b, h, hh,
                          0x33, 0x9c, 0x13, 0x5b, l, ll, 0, 0, 0, 0]
    ensures ReadsAs(e, name, attr, l as int + 256 * ll as int + 65536 * h as int + 16777216 * hh as int)
  {
    assert e[28..32] == [0, 0, 0, 0];
  }

  lemma DirentNamesCluster(e: seq<byte>, name: seq<byte>, attr: byte, first: nat)
    requires ReadsAs(e, name, attr, first)
    ensures FirstCluster(e) == first
  {}

  function DotName(dots: nat): (n: seq<byte>)
    ensures |n| == 11
  {
    seq(11, i requires 0 <= i < 11 => if i < dots then 0x2E as byte else 0x20 as byte)
  }

  /** A new directory holds an entry `.` for itself, an entry `..` for its parent, and nothing else. */
  ghost predicate IsNewDirectory(c: seq<byte>, self: nat, parent: nat) {
    && |c| == 4096
    && ReadsAs(c[..32], [0x2E, 0x20, 0x20, 0x20, 0x20, 0x20, 0x20, 0x20, 0x20, 0x20, 0x20], 0x10, self)
    && ReadsAs(c[32..64], [0x2E, 0x2E, 0x20, 0x20, 0x20, 0x20, 0x20, 0x20, 0x20, 0x20, 0x20], 0x10, parent)
    && forall i | 64 <= i < 4096 :: c[i] == 0
  }

  /** The first cluster of a new directory. */
  function DotCluster(self: nat, parent: nat): (c: seq<byte>)
    ensures |c| == CLUSTER_SIZE
  {
    MakeDirent(DotName(1), 0x10, self) + MakeDirent(DotName(2), 0x10, parent) + Zeros(CLUSTER_SIZE - 2 * DIRENT)
  }

  lemma NewDirectoryReads(self: nat, parent: nat, c: seq<byte>)
    requires self < 0x1_0000_0000 && parent < 0x1_0000_0000 && c == DotCluster(self, parent)
    ensures IsNewDirectory(c, self, parent)
  {
    var dot, dots := MakeDirent(DotName(1), 0x10, self), MakeDirent(DotName(2), 0x10, parent);
    DirentReads(DotName(1), 0x10, self, dot);
    DirentReads(DotName(2), 0x10, parent, dots);
    assert c[..32] == dot && c[32..64] == dots;
    assert DotName(1) == [0x2E, 0x20, 0x20, 0x20, 0x20, 0x20, 0x20, 0x20, 0x20, 0x20, 0x20];
    assert DotName(2) == [0x2E, 0x2E, 0x20, 0x20, 0x20, 0x20, 0x20, 0x20, 0x20, 0x20, 0x20];
  }

  predicate Unused(cluster: seq<byte>, slot: nat)
    requires |cluster| == CLUSTER_SIZE && slot < CLUSTER_SIZE / DIRENT
  {
    cluster[slot * DIRENT] == DELETED || cluster[slot * DIRENT] == 0
  }

  /** The slot a directory's next entry goes to: the first one that is unused. */
  ghost predicate FirstUnused(data: seq<seq<byte>>, ch: seq<nat>, k: nat, slot: nat) {
    && Stored(data, ch) && k < |ch| && slot < CLUSTER_SIZE / DIRENT
    && Unused(data[ch[k]], slot) && Taken(data, ch, k, slot)
  }

  /** The slots of the first `k` clusters, and the first `n` of the next one, are all taken. */
  ghost predicate Taken(data: seq<seq<byte>>, ch: seq<nat>, k: nat, n: nat)
    requires Stored(data, ch) && k <= |ch| && n <= CLUSTER_SIZE / DIRENT && (n > 0 ==> k < |ch|)
  {
    && (forall j, s: nat | 0 <= j < k && s < CLUSTER_SIZE / DIRENT :: !Unused(data[ch[j]], s))
    && (forall s: nat | s < n :: !Unused(data[ch[k]], s))
  }

  function Zeros(n: nat): (z: seq<byte>)
    ensures |z| == n && forall i | 0 <= i < n :: z[i] == 0
  {
    seq(n, _ => 0)
  }

  lemma FlatOfLonger(data: seq<seq<byte>>, ch: seq<nat>, c: nat)
    requires Stored(data, ch) && c < |data| && |data[c]| == CLUSTER_SIZE
    ensures Stored(data, ch + [c]) && Flat(data, ch + [c]) == Flat(data, ch) + data[c]
  {
    var long := ch + [c];
    forall i | 0 <= i < |long| * CLUSTER_SIZE ensures Flat(data, long)[i] == (Flat(data, ch) + data[c])[i] {
      if i >= |ch| * CLUSTER_SIZE {
        assert i / CLUSTER_SIZE == |ch| && i % CLUSTER_SIZE == i - |ch| * CLUSTER_SIZE;
      }
    }
  }

  /** The chains after chain `i` got cluster `blank`, if it got one. */
  ghost function Grown(chains: seq<seq<nat>>, i: nat, blank: nat): seq<seq<nat>>
    requires i < |chains|
  {
    if blank == 0 then chains else chains[i := chains[i] + [blank]]
  }

  lemma GrownCovers(chains: seq<seq<nat>>, i: nat, blank: nat, c: nat)
    requires i < |chains| && InNoChain(Grown(chains, i, blank), c)
    ensures InNoChain(chains, c) && c !in Grown(chains, i, blank)[i]
  {
    forall j | 0 <= j < |chains| ensures c !in chains[j] {
      assert c !in Grown(chains, i, blank)[j];
    }
  }

  ghost predicate SameFile(data: seq<seq<byte>>, data': seq<seq<byte>>, ch: seq<nat>) {
    Stored(data, ch) && Stored(data', ch) && Flat(data', ch) == Flat(data, ch)
  }

  /** A write confined to one chain and to clusters of no chain leaves the other files alone. */
  lemma OtherFileKept(fat: Fat, chains: seq<seq<nat>>, i: nat, j: nat, data: seq<seq<byte>>, data': seq<seq<byte>>,
                      b: nat, c: nat)
    requires Chains(fat, chains) && i < |chains| && j < |chains| && j != i && |data| == |data'| == |fat|
    requires forall x | 0 <= x < |data| :: |data[x]| == CLUSTER_SIZE
    requires (b != 0 ==> InNoChain(chains, b)) && InNoChain(chains, c)
    requires forall x | 0 <= x < |data| && x != b && x != c && x !in chains[i] :: data'[x] == data[x]
    ensures SameFile(data, data', chains[j])
  {
    assert IsChain(fat, chains[j]);
    assert if i < j then Disjoint(chains[i], chains[j]) else Disjoint(chains[j], chains[i]);
    forall k | 0 <= k < |chains[j]| ensures chains[j][k] < |data| && data'[chains[j][k]] == data[chains[j][k]] {
      assert InRange(fat, chains[j][k]) && chains[j][k] in chains[j];
    }
    FlatFrame(data, data', chains[j]);
  }

  ghost predicate OthersSame(data: seq<seq<byte>>, data': seq<seq<byte>>, chains: seq<seq<nat>>, i: nat) {
    forall j | 0 <= j < |chains| && j != i :: SameFile(data, data', chains[j])
  }

  lemma OtherFilesKept(fat: Fat, chains: seq<seq<nat>>, i: nat, data: seq<seq<byte>>, data': seq<seq<byte>>, b: nat,
                       c: nat)
    requires Chains(fat, chains) && i < |chains| && |data| == |data'| == |fat|
    requires forall x | 0 <= x < |data| :: |data[x]| == CLUSTER_SIZE
    requires (b != 0 ==> InNoChain(chains, b)) && InNoChain(chains, c)
    requires forall x | 0 <= x < |data| && x != b && x != c && x !in chains[i] :: data'[x] == data[x]
    ensures OthersSame(data, data', chains, i)
  {
    forall j | 0 <= j < |chains| && j != i ensures SameFile(data, data', chains[j]) {
      OtherFileKept(fat, chains, i, j, data, data', b, c);
    }
  }

  /** The byte image after a directory entry was put in. */
  ghost predicate DirentPut(data: seq<seq<byte>>, data': seq<seq<byte>>, ch: seq<nat>, k: nat, slot: nat,
                            entry: seq<byte>)
    requires Stored(data, ch) && k < |ch| && slot < CLUSTER_SIZE / DIRENT && |entry| == DIRENT
  {
    && Stored(data', ch) && k * CLUSTER_SIZE + slot * DIRENT + DIRENT <= |ch| * CLUSTER_SIZE
    && var pos := k * CLUSTER_SIZE + slot * DIRENT;
       Flat(data', ch) == Flat(data, ch)[..pos] + entry + Flat(data, ch)[pos + DIRENT..]
  }

  /** The bytes of the parent directory after a create. */
  ghost predicate ParentHolds(data: seq<seq<byte>>, data': seq<seq<byte>>, ch: seq<nat>, blank: nat, k: nat, slot: nat,
                              entry: seq<byte>)
    requires Stored(data, ch) && |entry| == DIRENT
  {
    if blank == 0 then
      k < |ch| && slot < CLUSTER_SIZE / DIRENT && DirentPut(data, data', ch, k, slot, entry)
    else
      Stored(data', ch + [blank]) && Flat(data', ch + [blank]) == Flat(data, ch) + entry + Zeros(CLUSTER_SIZE - DIRENT)
  }

  /** No cluster but `b` and `c` was used up. */
  ghost predicate StillFree(fat: Fat, fat': Fat, b: nat, c: nat) {
    && |fat'| == |fat|
    && forall d | 2 <= d < |fat| && d != b && d != c && NextOf(fat, d) == 0 :: NextOf(fat', d) == 0
  }

  /** What adding an entry to directory `i` did to the clusters. */
  ghost predicate DirentAdded(data: seq<seq<byte>>, data': seq<seq<byte>>, chains: seq<seq<nat>>, i: nat, blank: nat,
                              k: nat, slot: nat, entry: seq<byte>)
    requires i < |chains| && |entry| == DIRENT
  {
    && Stored(data, chains[i]) && |data'| == |data| && (blank != 0 ==> InNoChain(chains, blank))
    && ParentHolds(data, data', chains[i], blank, k, slot, entry)
    && forall c | 0 <= c < |data| && c != blank && c !in chains[i] :: data'[c] == data[c]
  }

  /** Filling the new file's cluster afterwards leaves the directory and every other file alone. */
  lemma CreateEnds(fat: Fat, chains: seq<seq<nat>>, i: nat, data: seq<seq<byte>>, put: seq<seq<byte>>,
                   data': seq<seq<byte>>, blank: nat, k: nat, slot: nat, entry: seq<byte>, start: nat)
    requires Chains(fat, chains) && i < |chains| && |entry| == DIRENT && |data| == |fat| && start < |put|
    requires forall x | 0 <= x < |data| :: |data[x]| == CLUSTER_SIZE
    requires DirentAdded(data, put, chains, i, blank, k, slot, entry) && InNoChain(Grown(chains, i, blank), start)
    requires |data'| == |put| && data' == put[start := data'[start]]
    ensures ParentHolds(data, data', chains[i], blank, k, slot, entry) && OthersSame(data, data', chains, i)
    ensures InNoChain(chains, start)
  {
    GrownCovers(chains, i, blank, start);
    ParentStays(data, put, chains[i], blank, k, slot, entry, start, data'[start]);
    OtherFilesKept(fat, chains, i, data, data', blank, start);
  }

  lemma ParentStays(data: seq<seq<byte>>, data': seq<seq<byte>>, ch: seq<nat>, blank: nat, k: nat, slot: nat,
                    entry: seq<byte>, c: nat, cluster: seq<byte>)
    requires Stored(data, ch) && |entry| == DIRENT && ParentHolds(data, data', ch, blank, k, slot, entry)
    requires c < |data'| && c !in (if blank == 0 then ch else ch + [blank])
    ensures ParentHolds(data, data'[c := cluster], ch, blank, k, slot, entry)
  {
    FlatFrame(data', data'[c := cluster], if blank == 0 then ch else ch + [blank]);
  }

  class Volume {
    var fats: seq<Fat>           // the primary table first
    var data: seq<seq<byte>>     // by cluster number
    const boot: seq<nat>         // the boot sector as words

    constructor (fats: seq<Fat>, data: seq<seq<byte>>, boot: seq<nat>)
      requires |fats| > 0 && |boot| == PER_SECTOR && (forall m | 0 <= m < |fats| :: |fats[m]| == |data|)
      requires forall c | 0 <= c < |data| :: |data[c]| == CLUSTER_SIZE
      ensures Valid() && this.fats == fats && this.data == data && this.boot == boot
    {
      this.fats, this.data, this.boot := fats, data, boot;
    }

    ghost predicate Valid()
      reads this
    {
      && |fats| > 0 && |boot| == PER_SECTOR
      && (forall m | 0 <= m < |fats| :: |fats[m]| == |data|)
      && forall c | 0 <= c < |data| :: |data[c]| == CLUSTER_SIZE
    }

    // ----- Table entries -----

    method GetFatEntry(c: nat) returns (value: nat)
      requires Valid() && c < |data|
      ensures value == NextOf(fats[0], c)
    {
      value := Mask(fats[0][c]);
    }

    /** `fat32_set_fat_entry`: the sector is updated in the primary table and then written to every mirror. */
    method SetFatEntry(c: nat, value: nat)
      requires Valid() && c < |data|
      modifies this`fats
      ensures Valid() && |fats| == |old(fats)| && fats[0] == old(fats)[0][c := value % 0x1000_0000]
      ensures forall m | 0 <= m < |fats| :: fats[m] == SectorWritten(old(fats)[m], fats[0], c / PER_SECTOR)
      ensures forall m, e | 0 <= m < |fats| && 0 <= e < |data| ::
                fats[m][e] == if e / 128 == c / 128 then fats[0][e] else old(fats)[m][e]
      ensures Mirrored(fats, c / PER_SECTOR) && MirrorsKept(old(fats), fats)
    {
      var sec := c / PER_SECTOR;
      var primary: Fat := fats[0][c := Mask(value)];
      ghost var before := fats;
      fats := fats[0 := primary];
      var i := 1;
      while i < |fats|
        invariant 1 <= i <= |fats| == |before| && Valid() && fats[0] == primary
        invariant forall m | 1 <= m < i :: fats[m] == SectorWritten(before[m], primary, sec)
        invariant forall m | i <= m < |fats| :: fats[m] == before[m]
      {
        fats := fats[i := SectorWritten(fats[i], primary, sec)];
        i := i + 1;
      }
      assert fats[0] == SectorWritten(before[0], primary, sec);
      EntryIsMirrored(before, fats, c, Mask(value));
    }

    /** `fat_set_entry`: the mirrors get the boot sector, because the wrong buffer is written to them. */
    method SetEntryOnCreate(c: nat, value: nat)
      requires Valid() && c < |data|
      modifies this`fats
      ensures Valid() && |fats| == |old(fats)| && fats[0] == old(fats)[0][c := value % 0x1000_0000]
      ensures forall m, e | 1 <= m < |fats| && 0 <= e < |data| ::
                fats[m][e] == if e / 128 == c / 128 then boot[e % 128] else old(fats)[m][e]
      ensures BootWritten(old(fats), fats, boot, c / PER_SECTOR)
      ensures Mirrored(fats, c / PER_SECTOR) <==> |fats| == 1 || IsBoot(fats[0], boot, c / PER_SECTOR)
    {
      var sec := c / PER_SECTOR;
      var primary: Fat := fats[0][c := Mask(value)];
      ghost var before := fats;
      fats := fats[0 := primary];
      var i := 1;
      while i < |fats|
        invariant 1 <= i <= |fats| == |before| && Valid() && fats[0] == primary
        invariant forall m | 1 <= m < i :: fats[m] == SectorWritten(before[m], Repeated(boot, |data|), sec)
        invariant forall m | i <= m < |fats| :: fats[m] == before[m]
      {
        fats := fats[i := SectorWritten(fats[i], Repeated(boot, |data|), sec)];
        i := i + 1;
      }
      MirrorAgreesExactly(before, fats, boot, sec);
    }

    /** `get_next_cluster`: the end of a chain reads as 0. */
    method GetNextCluster(c: nat) returns (next: nat)
      requires Valid() && c < |data|
      ensures next == if NextOf(fats[0], c) >= EOC then 0 else NextOf(fats[0], c)
      ensures var entry := fats[0][c] % 0x1000_0000; next == if entry >= 0x0FFF_FFF8 then 0 else entry
    {
      next := Mask(fats[0][c]);
      if next >= EOC {
        next := 0;
      }
    }

    method FindBlankCluster() returns (c: nat)
      requires Valid()
      ensures c != 0 ==> 2 <= c < |data| && NextOf(fats[0], c) == 0 && forall d | 2 <= d < c :: NextOf(fats[0], d) != 0
      ensures c == 0 ==> forall d | 2 <= d < |data| :: NextOf(fats[0], d) != 0
      ensures c != 0 ==> c < |data| && fats[0][c] % 0x1000_0000 == 0
      ensures forall d | 2 <= d < |data| && (c == 0 || d < c) :: fats[0][d] % 0x1000_0000 != 0
    {
      c := 2;
      while c < |data|
        invariant 2 <= c && forall d | 2 <= d < c && d < |data| :: NextOf(fats[0], d) != 0
      {
        if Mask(fats[0][c]) == 0 {
          assert forall d | 2 <= d < c :: NextOf(fats[0], d) == fats[0][d] % 0x1000_0000;
          return;
        }
        c := c + 1;
      }
      c := 0;
      assert forall d | 2 <= d < |data| :: NextOf(fats[0], d) == fats[0][d] % 0x1000_0000;
    }

    // ----- Growing and freeing chains -----

    ghost predicate Holds(chains: seq<seq<nat>>)
      reads this
    {
      Valid() && |data| <= EOC && Chains(fats[0], chains)
    }

    /** `expand_file` on the last cluster of chain `i`. */
    method ExpandFile(cluster: nat, ghost chains: seq<seq<nat>>, ghost i: nat) returns (c: nat)
      requires Holds(chains) && i < |chains| && cluster == chains[i][|chains[i]| - 1]
      modifies this`fats
      ensures c == 0 ==> fats == old(fats) && forall d | 2 <= d < |data| :: NextOf(fats[0], d) != 0
      ensures c != 0 ==> InNoChain(chains, c) && Holds(chains[i := chains[i] + [c]])
      ensures c != 0 ==> cluster < |data| && c < |data| && fats[0] == old(fats)[0][cluster := c][c := 0x0FFF_FFF8]
      ensures c != 0 ==> MirrorsKept(old(fats), fats)
      ensures c != 0 ==> Mirrored(fats, cluster / PER_SECTOR) && Mirrored(fats, c / PER_SECTOR)
    {
      assert IsChain(fats[0], chains[i]) && InRange(fats[0], cluster);
      c := FindBlankCluster();
      if c < 2 {
        return 0;
      }
      FreeIsInNoChain(fats[0], chains, c);
      AppendToChain(fats[0], chains, i, c, EOC);
      SetFatEntry(cluster, c);
      ghost var linked := fats;
      SetFatEntry(c, EOC);
      MirrorsKeptChains(old(fats), linked, fats);
    }

    /** One turn of the free loop: read the successor, then zero the entry. */
    method FreeOne(c: nat, ghost before: seq<Fat>, ghost ch: seq<nat>, ghost k: nat) returns (next: nat)
      requires Valid() && |data| <= EOC && Freeing(before, fats, ch, k) && k < |ch| && c == ch[k]
      modifies this`fats
      ensures Valid() && Freeing(before, fats, ch, k + 1)
      ensures if k + 1 < |ch| then next == ch[k + 1] && 2 <= next < EOC else next >= EOC
    {
      ghost var now := fats;
      assert InRange(before[0], ch[k]) && ch[k] !in ch[..k];
      next := GetFatEntry(c);
      assert k < |ch| - 1 ==> next == ch[k + 1] && InRange(before[0], ch[k + 1]);
      SetFatEntry(c, 0);
      MirrorsKeptChains(before, now, fats);
      MirroredMore(now, fats, ch, k);
      assert ch[..k + 1] == ch[..k] + [ch[k]];
    }

    /** The free loop of truncate and rmdir. */
    method FreeChain(first: nat, ghost chains: seq<seq<nat>>, ghost i: nat)
      requires Holds(chains) && i < |chains| && first == chains[i][0]
      modifies this`fats
      ensures Holds(chains[..i] + chains[i + 1..]) && FreedPrefix(old(fats)[0], fats[0], chains[i], |chains[i]|)
      ensures MirrorsKept(old(fats), fats) && ChainMirrored(fats, chains[i], |chains[i]|)
    {
      ghost var ch, before := chains[i], fats;
      assert IsChain(fats[0], ch) && InRange(fats[0], first);
      var c := first;
      ghost var k := 0;
      while 2 <= c < EOC
        invariant 0 <= k <= |ch| && Valid() && Freeing(before, fats, ch, k)
        invariant if k < |ch| then c == ch[k] && 2 <= c < EOC else c >= EOC
        decreases |ch| - k
      {
        c := FreeOne(c, before, ch, k);
        k := k + 1;
      }
      FreeingOneChain(before[0], fats[0], chains, i);
    }

    // ----- Creating a file or directory -----

    /** The slot search of `fat32_create` through the parent's chain. */
    /** The inner loop: the first unused entry of one cluster. */
    method FindSlotIn(cluster: nat) returns (found: bool, slot: nat)
      requires Valid() && cluster < |data|
      ensures slot < CLUSTER_SIZE / DIRENT && (found ==> Unused(data[cluster], slot))
      ensures forall s: nat | s < (if found then slot else CLUSTER_SIZE / DIRENT) :: !Unused(data[cluster], s)
      ensures found ==> data[cluster][32 * slot] == 0 || data[cluster][32 * slot] == 0xE5
      ensures !found ==> forall s: nat | s < 128 :: data[cluster][32 * s] != 0 && data[cluster][32 * s] != 0xE5
    {
      slot := 0;
      while slot < CLUSTER_SIZE / DIRENT
        invariant slot <= CLUSTER_SIZE / DIRENT && forall s: nat | s < slot :: !Unused(data[cluster], s)
      {
        if data[cluster][slot * DIRENT] == DELETED || data[cluster][slot * DIRENT] == 0 {
          return true, slot;
        }
        slot := slot + 1;
      }
      forall s: nat | s < 128 ensures data[cluster][32 * s] != 0 && data[cluster][32 * s] != 0xE5 {
        assert !Unused(data[cluster], s);
      }
      return false, 0;
    }

    method FindDirentSlot(first: nat, ghost chains: seq<seq<nat>>, ghost i: nat)
      returns (found: bool, cluster: nat, slot: nat, ghost k: nat)
      requires Holds(chains) && i < |chains| && first == chains[i][0]
      ensures k < |chains[i]| && cluster == chains[i][k] && cluster < |data| && slot < CLUSTER_SIZE / DIRENT
      ensures Stored(data, chains[i])
      ensures found ==> Unused(data[cluster], slot) && Taken(data, chains[i], k, slot)
      ensures !found ==> k == |chains[i]| - 1 && Taken(data, chains[i], |chains[i]|, 0)
      ensures found ==> |data[cluster]| == 4096 && (data[cluster][32 * slot] == 0 || data[cluster][32 * slot] == 0xE5)
    {
      ghost var ch := chains[i];
      assert IsChain(fats[0], ch);
      assert forall j | 0 <= j < |ch| :: InRange(fats[0], ch[j]);
      cluster, k := first, 0;
      while true
        invariant k < |ch| && cluster == ch[k] && Taken(data, ch, k, 0)
        decreases |ch| - k
      {
        found, slot := FindSlotIn(cluster);
        if found { return; }
        var next := GetNextCluster(cluster);
        assert k < |ch| - 1 ==> NextOf(fats[0], ch[k]) == ch[k + 1] && InRange(fats[0], ch[k + 1]);
        if next < 2 {
          return false, cluster, 0, k;
        }
        cluster, k := next, k + 1;
      }
    }

    /** `extend_dirent_cluster`: on the primary table only; the new cluster reads as zero. */
    method ExtendDirent(last: nat, blank: nat, ghost chains: seq<seq<nat>>, ghost i: nat)
      requires Holds(chains) && i < |chains| && last == chains[i][|chains[i]| - 1]
      requires 2 <= blank < |data| && NextOf(fats[0], blank) == 0
      modifies this`fats, this`data
      ensures Holds(chains[i := chains[i] + [blank]]) && data == old(data)[blank := Zeros(CLUSTER_SIZE)]
      ensures last < |data| && fats[0] == old(fats)[0][last := blank][blank := 0x0FFF_FFFF]
      ensures fats[1..] == old(fats)[1..]
      ensures forall d | 2 <= d < |fats[0]| && d != blank && NextOf(old(fats)[0], d) == 0 :: NextOf(fats[0], d) == 0
    {
      assert IsChain(fats[0], chains[i]) && InRange(fats[0], last) && InRange(fats[0], blank);
      FreeIsInNoChain(fats[0], chains, blank);
      AppendToChain(fats[0], chains, i, blank, 0x0FFF_FFFF);
      var linked: Fat := fats[0][last := Mask(blank)];
      linked := linked[blank := 0x0FFF_FFFF];
      assert linked == fats[0][last := blank][blank := 0x0FFF_FFFF];
      assert NextOf(fats[0], last) != 0;
      fats := fats[0 := linked];
      data := data[blank := Zeros(CLUSTER_SIZE)];
    }

    method PutDirent(cluster: nat, slot: nat, entry: seq<byte>, ghost ch: seq<nat>, ghost k: nat)
      requires Valid() && cluster < |data| && slot < CLUSTER_SIZE / DIRENT && |entry| == DIRENT
      requires Stored(data, ch) && k < |ch| && ch[k] == cluster && forall i, j | 0 <= i < j < |ch| :: ch[i] != ch[j]
      modifies this`data
      ensures Valid() && DirentPut(old(data), data, ch, k, slot, entry)
      ensures |data| == |old(data)| && forall c | 0 <= c < |data| && c != cluster :: data[c] == old(data)[c]
    {
      var at := slot * DIRENT;
      PatchCluster(data, ch, k, at, entry);
      var buffer := data[cluster];
      buffer := buffer[..at] + entry + buffer[at + DIRENT..];
      data := data[cluster := buffer];
    }

    /** A cluster is free for the new file, and a second one if directory `ch` is full. */
    ghost predicate Spare(ch: seq<nat>, f: nat, g: nat)
      requires Stored(data, ch)
      reads this
    {
      && Valid() && 2 <= f < |data| && NextOf(fats[0], f) == 0
      && (Taken(data, ch, |ch|, 0) ==> f < g < |data| && NextOf(fats[0], g) == 0)
    }

    /** `create_dirent_entry`: the entry of an empty file whose first cluster is the lowest free one. */
    method NewDirent(name: seq<byte>, attr: byte) returns (entry: seq<byte>, start: nat)
      requires Valid() && |data| <= EOC && |name| == 11
      ensures ReadsAs(entry, name, attr, start)
      ensures start != 0 ==> 2 <= start < |data| && NextOf(fats[0], start) == 0
      ensures start == 0 ==> forall d | 2 <= d < |data| :: NextOf(fats[0], d) != 0
    {
      start := FindBlankCluster();
      entry := MakeDirent(name, attr, start);
      DirentReads(name, attr, start, entry);
    }

    /** The case of a full directory: a cluster is appended, and the entry is its first. */
    method AddInNewCluster(last: nat, name: seq<byte>, attr: byte, ghost chains: seq<seq<nat>>, ghost i: nat,
                           ghost f: nat, ghost g: nat)
      returns (start: nat, blank: nat, entry: seq<byte>)
      requires Holds(chains) && i < |chains| && last == chains[i][|chains[i]| - 1] && |name| == 11
      requires 2 <= f < g < |data| && NextOf(fats[0], f) == NextOf(fats[0], g) == 0
      modifies this`fats, this`data
      ensures Holds(chains[i := chains[i] + [blank]]) && 2 <= start < |data| && NextOf(fats[0], start) == 0
      ensures fats[1..] == old(fats)[1..] && StillFree(old(fats)[0], fats[0], blank, 0)
      ensures ReadsAs(entry, name, attr, start) && 2 <= blank < |data| && InNoChain(chains, blank) && blank != start
      ensures data == old(data)[blank := entry + Zeros(CLUSTER_SIZE - DIRENT)]
    {
      blank := FindBlankCluster();
      FreeIsInNoChain(fats[0], chains, blank);
      ExtendDirent(last, blank, chains, i);
      assert NextOf(fats[0], if blank == f then g else f) == 0;
      assert NextOf(fats[0], blank) != 0 by {
        assert IsChain(fats[0], chains[i := chains[i] + [blank]][i]);
      }
      entry, start := NewDirent(name, attr);
      data := data[blank := entry + Zeros(CLUSTER_SIZE - DIRENT)];
    }

    /** The directory part of `fat32_create`: the entry goes into the first unused slot of the parent's chain,
        or, when all are taken, into a cluster appended to it. */
    method AddDirent(first: nat, name: seq<byte>, attr: byte, ghost chains: seq<seq<nat>>, ghost i: nat, ghost f: nat,
                     ghost g: nat)
      returns (start: nat, blank: nat, entry: seq<byte>, ghost k: nat, ghost slot: nat)
      requires Holds(chains) && i < |chains| && first == chains[i][0] && |name| == 11
      requires Stored(data, chains[i]) && Spare(chains[i], f, g)
      modifies this`fats, this`data
      ensures Holds(Grown(chains, i, blank)) && 2 <= start < |data| == |old(data)| && NextOf(fats[0], start) == 0
      ensures fats[1..] == old(fats)[1..] && StillFree(old(fats)[0], fats[0], blank, 0)
      ensures ReadsAs(entry, name, attr, start) && blank != start
      ensures Stored(old(data), chains[i]) && (blank != 0 <==> Taken(old(data), chains[i], |chains[i]|, 0))
      ensures blank == 0 ==>
                && FirstUnused(old(data), chains[i], k, slot) && fats == old(fats)
                && DirentPut(old(data), data, chains[i], k, slot, entry)
                && forall c | 0 <= c < |data| && c != chains[i][k] :: data[c] == old(data)[c]
      ensures blank != 0 ==>
                && 2 <= blank < |data| && InNoChain(chains, blank)
                && data == old(data)[blank := entry + Zeros(CLUSTER_SIZE - DIRENT)]
    {
      ghost var ch := chains[i];
      assert IsChain(fats[0], ch);
      var found, cluster, s;
      found, cluster, s, k := FindDirentSlot(first, chains, i);
      slot, blank := s, 0;
      if found {
        entry, start := NewDirent(name, attr);
        PutDirent(cluster, s, entry, ch, k);
      } else {
        start, blank, entry := AddInNewCluster(cluster, name, attr, chains, i, f, g);
      }
    }

    /** `AddDirent` seen through the files' bytes. */
    method AddDirentBytes(first: nat, name: seq<byte>, attr: byte, ghost chains: seq<seq<nat>>, ghost i: nat,
                          ghost f: nat, ghost g: nat)
      returns (start: nat, blank: nat, entry: seq<byte>, ghost k: nat, ghost slot: nat)
      requires Holds(chains) && i < |chains| && first == chains[i][0] && |name| == 11
      requires Stored(data, chains[i]) && Spare(chains[i], f, g)
      modifies this`fats, this`data
      ensures Holds(Grown(chains, i, blank)) && 2 <= start < |data| == |old(data)| && NextOf(fats[0], start) == 0
      ensures fats[1..] == old(fats)[1..] && StillFree(old(fats)[0], fats[0], blank, 0)
      ensures ReadsAs(entry, name, attr, start) && blank != start
      ensures blank != 0 <==> Taken(old(data), chains[i], |chains[i]|, 0)
      ensures DirentAdded(old(data), data, chains, i, blank, k, slot, entry)
      ensures blank == 0 ==> FirstUnused(old(data), chains[i], k, slot)
    {
      assert IsChain(fats[0], chains[i]);
      start, blank, entry, k, slot := AddDirent(first, name, attr, chains, i, f, g);
      if blank != 0 {
        assert blank !in chains[i];
        FlatFrame(old(data), data, chains[i]);
        FlatOfLonger(data, chains[i], blank);
      }
    }

    /** The end of `fat32_create`: fill a new directory's cluster and mark the cluster as a chain. */
    method OpenChain(start: nat, parent: nat, isDir: bool, ghost chains: seq<seq<nat>>)
      requires Holds(chains) && 2 <= start < |data| && NextOf(fats[0], start) == 0
      modifies this`fats, this`data
      ensures Holds(chains + [[start]])
      ensures data == old(data)[start := if isDir then DotCluster(start, parent) else old(data)[start]]
      ensures BootWritten(old(fats), fats, boot, start / PER_SECTOR)
      ensures Mirrored(fats, start / PER_SECTOR) <==> |fats| == 1 || IsBoot(fats[0], boot, start / PER_SECTOR)
      ensures StillFree(old(fats)[0], fats[0], start, 0) && fats[0] == old(fats)[0][start := 0x0FFF_FFF8]
    {
      NewChain(fats[0], chains, start, EOC);
      if isDir {
        data := data[start := DotCluster(start, parent)];
      }
      SetEntryOnCreate(start, EOC);
    }

    /** `fat32_create`: one new chain of one cluster, the parent's chain longer by at most one, no other chain and
        no other file's bytes changed. */
    method Create(first: nat, name: seq<byte>, isDir: bool, ghost chains: seq<seq<nat>>, ghost i: nat, ghost f: nat,
                  ghost g: nat)
      returns (start: nat, blank: nat, entry: seq<byte>, ghost k: nat, ghost slot: nat)
      requires Holds(chains) && i < |chains| && first == chains[i][0] && |name| == 11
      requires Stored(data, chains[i]) && Spare(chains[i], f, g)
      modifies this`fats, this`data
      ensures Holds(Grown(chains, i, blank) + [[start]]) && InNoChain(chains, start) && |data| == |old(data)|
      ensures blank != 0 ==> blank != start && InNoChain(chains, blank)
      ensures Stored(old(data), chains[i]) && (blank != 0 <==> Taken(old(data), chains[i], |chains[i]|, 0))
      ensures blank == 0 ==> FirstUnused(old(data), chains[i], k, slot)
      ensures ReadsAs(entry, name, if isDir then 0x10 else 0x20, start)
      ensures ParentHolds(old(data), data, chains[i], blank, k, slot, entry)
      ensures OthersSame(old(data), data, chains, i) && StillFree(old(fats)[0], fats[0], start, blank)
      ensures start < |data| && fats[0][start] == 0x0FFF_FFF8
      ensures start < |data| && if isDir then IsNewDirectory(data[start], start, first)
                                else data[start] == old(data)[start]
      ensures BootWritten(old(fats), fats, boot, start / PER_SECTOR)
      ensures Mirrored(fats, start / PER_SECTOR) <==> |fats| == 1 || IsBoot(fats[0], boot, start / PER_SECTOR)
    {
      ghost var fat := fats[0];
      var attr: byte := if isDir then 0x10 else 0x20;
      start, blank, entry, k, slot := AddDirentBytes(first, name, attr, chains, i, f, g);
      ghost var grown, put := Grown(chains, i, blank), data;
      assert IsChain(fat, chains[i]) && InRange(fat, first);
      NewDirectoryReads(start, first, DotCluster(start, first));
      FreeIsInNoChain(fats[0], grown, start);
      ghost var before := fats;
      OpenChain(start, first, isDir, grown);
      SameMirrors(old(fats), before, fats, boot, start / PER_SECTOR);
      CreateEnds(fat, chains, i, old(data), put, data, blank, k, slot, entry, start);
    }

    // ----- Reading and writing files -----

    /** `get_next_cluster` along a chain: the next cluster, or 0 at the end. */
    method NextInChain(cluster: nat, ghost ch: seq<nat>, ghost k: nat) returns (next: nat)
      requires Valid() && IsChain(fats[0], ch) && k < |ch| && cluster == ch[k]
      ensures next == if k + 1 < |ch| then ch[k + 1] else 0
      ensures k + 1 < |ch| ==> 2 <= next < EOC && next < |data|
    {
      assert InRange(fats[0], ch[k]);
      assert k < |ch| - 1 ==> NextOf(fats[0], ch[k]) == ch[k + 1] && InRange(fats[0], ch[k + 1]);
      next := GetNextCluster(cluster);
    }

    /** The skip loop: the cluster holding the byte at `skip * 4096`; 0 right behind the end of the chain. */
    method SkipClusters(first: nat, skip: nat, ghost ch: seq<nat>) returns (cluster: nat)
      requires Valid() && IsChain(fats[0], ch) && first == ch[0] && skip <= |ch|
      ensures cluster == if skip < |ch| then ch[skip] else 0
    {
      cluster := first;
      for k := 0 to skip
        invariant cluster == if k < |ch| then ch[k] else 0
      {
        cluster := NextInChain(cluster, ch, k);
      }
    }

    /** One cluster of a read. */
    method ReadOne(cluster: nat, at: nat, n: nat, before: seq<byte>, ghost ch: seq<nat>, ghost k: nat, ghost base: nat)
      returns (out: seq<byte>)
      requires Valid() && k < |ch| && cluster == ch[k] && cluster < |data| && at + n <= CLUSTER_SIZE
      requires ReadSoFar(data, ch, base, before) && base + |before| == k * CLUSTER_SIZE + at
      ensures ReadSoFar(data, ch, base, out) && |out| == |before| + n
    {
      ghost var flat, pos := Flat(data, ch), base + |before|;
      FlatSlice(data, ch, k, at, n);
      assert flat[base..pos] + flat[pos..pos + n] == flat[base..pos + n];
      out := before + data[cluster][at..at + n];
    }

    /** The copy loop of a read, from byte `offset` of chain cluster `start` on. When it runs off the end of the chain
        it tries to read cluster 0 and fails. */
    method ReadClusters(first: nat, offset: nat, size: nat, ghost ch: seq<nat>, ghost start: nat)
      returns (ok: bool, out: seq<byte>)
      requires Valid() && IsChain(fats[0], ch) && Stored(data, ch) && offset < CLUSTER_SIZE && start < |ch|
      requires first == ch[start]
      ensures ReadSoFar(data, ch, start * CLUSTER_SIZE + offset, out)
      ensures |out| == Min(size, |ch| * CLUSTER_SIZE - (start * CLUSTER_SIZE + offset))
      ensures ok <==> start * CLUSTER_SIZE + offset + size <= |ch| * CLUSTER_SIZE
    {
      var cluster, at, left := first, offset, size;
      assert InRange(fats[0], ch[start]);
      ghost var k, base := start, start * CLUSTER_SIZE + offset;
      out := [];
      while left > 0 && cluster < EOC
        invariant 0 <= left && 0 <= at && 0 <= k <= |ch| && |out| + left == size && ReadSoFar(data, ch, base, out)
        invariant left > 0 ==> cluster == (if k < |ch| then ch[k] else 0) && cluster < EOC
        invariant left > 0 && k < |ch| ==> 2 <= cluster < |data|
        invariant left > 0 ==> base + |out| == k * CLUSTER_SIZE + at && at < CLUSTER_SIZE && (k == |ch| ==> at == 0)
        decreases left
      {
        if cluster < 2 {
          return false, out;
        }
        var n := if CLUSTER_SIZE - at > left then left else CLUSTER_SIZE - at;
        out := ReadOne(cluster, at, n, out, ch, k, base);
        left, at := left - n, 0;
        if left > 0 {
          cluster := NextInChain(cluster, ch, k);
          k := k + 1;
        }
      }
      return true, out;
    }

    /** The skip and copy loops of a read that starts inside the chain. */
    method ReadAt(first: nat, offset: nat, size: nat, ghost ch: seq<nat>) returns (ok: bool, out: seq<byte>)
      requires Valid() && IsChain(fats[0], ch) && Stored(data, ch) && first == ch[0] && offset < |ch| * CLUSTER_SIZE
      ensures ReadSoFar(data, ch, offset, out) && |out| == Min(size, |ch| * CLUSTER_SIZE - offset)
      ensures ok <==> offset + size <= |ch| * CLUSTER_SIZE
    {
      var skip, at := offset / CLUSTER_SIZE, offset % CLUSTER_SIZE;
      assert offset == skip * CLUSTER_SIZE + at;
      var cluster := SkipClusters(first, skip, ch);
      ok, out := ReadClusters(cluster, at, size, ch, skip);
    }

    /** `fat32_read_file_bytes`, given the file's first cluster and size. The end of the request is computed in 64 bits;
        when it wraps, the request is not cut to the file and the read fails with -3 at the chain's end. */
    method ReadFile(first: nat, fileSize: nat, offset: nat, size: nat, ghost ch: seq<nat>)
      returns (result: int, out: seq<byte>)
      requires Valid() && offset < MOD64 && size < MOD64
      requires first != 0 ==> IsChain(fats[0], ch) && first == ch[0] && fileSize <= |ch| * CLUSTER_SIZE
      ensures first == 0 ==> result == -1 && out == []
      ensures first != 0 ==> Stored(data, ch)
      ensures first != 0 && offset >= fileSize ==> result == 0 && out == []
      ensures first != 0 && offset < fileSize && offset + size < MOD64 ==>
                result == |out| && out == Flat(data, ch)[offset..Min(offset + size, fileSize)]
      ensures first != 0 && offset < fileSize && offset + size >= MOD64 ==>
                if offset + size <= |ch| * CLUSTER_SIZE
                then result == |out| && out == Flat(data, ch)[offset..offset + size]
                else result == -3 && out == Flat(data, ch)[offset..]
      ensures first != 0 ==> BytesOf(data, ch, offset, out)
    {
      if first == 0 {
        return -1, [];
      }
      assert Stored(data, ch) by {
        assert forall k | 0 <= k < |ch| :: InRange(fats[0], ch[k]);
      }
      if offset >= fileSize {
        return 0, [];
      }
      var end := if offset + size >= MOD64 then offset + size - MOD64 else offset + size;
      var left := if end > fileSize then fileSize - offset else size;
      var ok;
      ok, out := ReadAt(first, offset, left, ch);
      result := if ok then |out| else -3;
      SliceByBytes(data, ch, offset, out);
    }

    /** One cluster of a write: read it, patch it, write it back. */
    method PatchOne(cluster: nat, at: nat, bytes: seq<byte>, ghost before: seq<seq<byte>>, ghost ch: seq<nat>,
                    ghost k: nat, ghost offset: nat, ghost buf: seq<byte>, ghost w: nat)
      requires Valid() && Unique(ch) && k < |ch| && cluster == ch[k] && at + |bytes| <= CLUSTER_SIZE
      requires w + |bytes| <= |buf| && bytes == buf[w..w + |bytes|]
      requires WroteSoFar(before, data, ch, offset, buf, w) && offset + w == k * CLUSTER_SIZE + at
      modifies this`data
      ensures Valid() && WroteSoFar(before, data, ch, offset, buf, w + |bytes|)
    {
      PatchCluster(data, ch, k, at, bytes);
      SpliceMore(Flat(before, ch), offset, buf, w, |bytes|);
      assert cluster in ch;
      var tmp := data[cluster];
      tmp := tmp[..at] + bytes + tmp[at + |bytes|..];
      data := data[cluster := tmp];
    }

    /** One turn of the copy loop of a write. */
    method WriteStep(cluster: nat, at: nat, buf: seq<byte>, total: nat, ghost before: seq<seq<byte>>,
                     ghost ch: seq<nat>, ghost k: nat, ghost base: nat) returns (next: nat, n: nat)
      requires Valid() && IsChain(fats[0], ch) && k < |ch| && cluster == ch[k] && at < CLUSTER_SIZE && total < |buf|
      requires WroteSoFar(before, data, ch, base, buf, total) && base + total == k * CLUSTER_SIZE + at
      modifies this`data
      ensures Valid() && n == Min(CLUSTER_SIZE - at, |buf| - total)
      ensures WroteSoFar(before, data, ch, base, buf, total + n)
      ensures total + n < |buf| ==> next == (if k + 1 < |ch| then ch[k + 1] else 0) && (k + 1 < |ch| ==> 2 <= next)
    {
      n := if CLUSTER_SIZE - at > |buf| - total then |buf| - total else CLUSTER_SIZE - at;
      PatchOne(cluster, at, buf[total..total + n], before, ch, k, base, buf, total);
      next := cluster;
      if total + n < |buf| {
        next := NextInChain(cluster, ch, k);
      }
    }

    /** The copy loop of a write. It stops with -4 when it runs off the end of the chain, because the end reads as
        cluster 0 and is not recognised as a chain to expand. */
    method WriteClusters(first: nat, offset: nat, buf: seq<byte>, ghost ch: seq<nat>,
                         ghost start: nat) returns (ok: bool, w: nat)
      requires Valid() && IsChain(fats[0], ch) && Stored(data, ch) && offset < CLUSTER_SIZE && start <= |ch|
      requires first == (if start < |ch| then ch[start] else 0) && (start == |ch| ==> offset == 0)
      modifies this`data
      ensures Valid() && start * CLUSTER_SIZE + offset <= |ch| * CLUSTER_SIZE
      ensures ok <==> start * CLUSTER_SIZE + offset + |buf| <= |ch| * CLUSTER_SIZE
      ensures w == Min(|buf|, |ch| * CLUSTER_SIZE - (start * CLUSTER_SIZE + offset))
      ensures WroteSoFar(old(data), data, ch, start * CLUSTER_SIZE + offset, buf, w)
    {
      var cluster, at := first, offset;
      ghost var k, base := start, start * CLUSTER_SIZE + offset;
      w := 0;
      NothingWritten(data, ch, base, buf);
      assert start < |ch| ==> InRange(fats[0], ch[start]);
      while w < |buf|
        invariant w <= |buf| && 0 <= k <= |ch| && 0 <= at < CLUSTER_SIZE && Valid()
        invariant WroteSoFar(old(data), data, ch, base, buf, w)
        invariant w < |buf| ==> cluster == (if k < |ch| then ch[k] else 0) && base + w == k * CLUSTER_SIZE + at
        invariant w < |buf| && k < |ch| ==> 2 <= cluster
        invariant w < |buf| && k == |ch| ==> at == 0
      {
        if cluster < 2 {
          return false, w;
        }
        var n;
        cluster, n := WriteStep(cluster, at, buf, w, old(data), ch, k, base);
        at, w, k := 0, w + n, k + 1;
      }
      return true, w;
    }

    /** `fat32_write_file_bytes` on a file that has a first cluster: it succeeds exactly when the bytes fit in the
        file's chain, and is then the flat-array update; no other file changes. */
    method WriteFile(first: nat, fileSize: nat, offset: nat, buf: seq<byte>, ghost ch: seq<nat>)
      returns (result: int, newSize: nat)
      requires Valid() && IsChain(fats[0], ch) && first == ch[0] && fileSize <= |ch| * CLUSTER_SIZE
      modifies this`data
      ensures Valid() && Wrote(old(data), data, ch, fileSize, offset, buf, result, newSize)
      ensures offset <= fileSize ==> BytesWritten(old(data), data, ch, offset, buf, Min(|buf|, |ch| * 4096 - offset))
    {
      assert Stored(data, ch) by {
        assert forall k | 0 <= k < |ch| :: InRange(fats[0], ch[k]);
      }
      newSize := fileSize;
      if offset > fileSize {
        return -2, newSize;
      }
      var cluster := SkipClusters(first, offset / CLUSTER_SIZE, ch);
      var ok, _ := WriteClusters(cluster, offset % CLUSTER_SIZE, buf, ch, offset / CLUSTER_SIZE);
      SplicedByBytes(old(data), data, ch, offset, buf, Min(|buf|, |ch| * CLUSTER_SIZE - offset));
      if !ok {
        return -4, newSize;
      }
      if offset + |buf| > fileSize {
        newSize := offset + |buf|;
      }
      return 0, newSize;
    }

    /** `fat32_write_file_bytes` as a whole: a file without a first cluster, whose size is then 0, gets the lowest free
        one as a chain of its own; `start` is the file's first cluster afterwards. */
    method WriteBytes(first: nat, fileSize: nat, offset: nat, buf: seq<byte>, ghost chains: seq<seq<nat>>, ghost i: nat)
      returns (result: int, newSize: nat, start: nat)
      requires Holds(chains)
      requires if first == 0 then fileSize == 0
               else i < |chains| && first == chains[i][0] && fileSize <= |chains[i]| * CLUSTER_SIZE
      modifies this`fats, this`data
      ensures start == 0 ==> first == 0 && result == -6 && fats == old(fats) && data == old(data)
      ensures start == 0 ==> forall d | 2 <= d < |data| :: NextOf(fats[0], d) != 0
      ensures first != 0 ==> start == first && Holds(chains) && fats == old(fats)
      ensures first != 0 ==> Wrote(old(data), data, chains[i], fileSize, offset, buf, result, newSize)
      ensures first != 0 && offset <= fileSize ==>
                BytesWritten(old(data), data, chains[i], offset, buf, Min(|buf|, |chains[i]| * 4096 - offset))
      ensures first == 0 && start != 0 ==> InNoChain(chains, start) && Holds(chains + [[start]])
      ensures first == 0 && start != 0 ==> Wrote(old(data), data, [start], 0, offset, buf, result, newSize)
      ensures first == 0 && start != 0 ==> start < |data| && fats[0] == old(fats)[0][start := 0x0FFF_FFF8]
    {
      start := first;
      if first == 0 {
        start := FindBlankCluster();
        if start < 2 {
          return -6, fileSize, 0;
        }
        FreeIsInNoChain(fats[0], chains, start);
        NewChain(fats[0], chains, start, EOC);
        SetFatEntry(start, EOC);
        assert (chains + [[start]])[|chains|] == [start] && IsChain(fats[0], [start]);
        result, newSize := WriteFile(start, fileSize, offset, buf, [start]);
      } else {
        assert IsChain(fats[0], chains[i]);
        result, newSize := WriteFile(start, fileSize, offset, buf, chains[i]);
      }
    }

    /** A write inside the chain followed by any read of the file is the update of one flat byte array. */
    method WriteThenRead(first: nat, fileSize: nat, offset: nat, buf: seq<byte>, at: nat, size: nat, ghost ch: seq<nat>)
      returns (out: seq<byte>)
      requires Valid() && IsChain(fats[0], ch) && first == ch[0] && fileSize <= |ch| * CLUSTER_SIZE
      requires offset <= fileSize && offset + |buf| <= |ch| * CLUSTER_SIZE && at + size < MOD64
      modifies this`data
      ensures Valid() && Stored(old(data), ch)
      ensures var newSize := if offset + |buf| > fileSize then offset + |buf| else fileSize;
              out == if at >= newSize then []
                     else Spliced(Flat(old(data), ch), offset, buf, |buf|)[at..Min(at + size, newSize)]
      ensures forall j | 0 <= j < |out| :: (at + j) / 4096 < |ch| &&
                out[j] == if offset <= at + j < offset + |buf| then buf[at + j - offset]
                          else old(data)[ch[(at + j) / 4096]][(at + j) % 4096]
    {
      var result, newSize := WriteFile(first, fileSize, offset, buf, ch);
      assert first != 0 by { assert InRange(fats[0], ch[0]); }
      result, out := ReadFile(first, newSize, at, size, ch);
    }
  }
}
