/** The file allocation table of core/filesytem/fat32.h as linked lists embedded in an array. */
module FatChains {

  const EOC := 0x0FFF_FFF8    // FAT32_EOC: an entry at or above it ends a chain

  type Fat = seq<nat>

  /** The upper four bits of an entry are not part of it. */
  function Mask(entry: nat): nat {
    entry % 0x1000_0000
  }

  function NextOf(fat: Fat, c: nat): nat
    requires c < |fat|
  {
    Mask(fat[c])
  }

  ghost predicate InRange(fat: Fat, c: nat) {
    2 <= c < |fat| && c < EOC
  }

  /** A terminated, acyclic chain: each cluster's entry names the next one, the last one's ends it. */
  ghost predicate IsChain(fat: Fat, ch: seq<nat>) {
    && ch != []
    && (forall k | 0 <= k < |ch| :: InRange(fat, ch[k]))
    && (forall j, k | 0 <= j < k < |ch| :: ch[j] != ch[k])
    && (forall k | 0 <= k < |ch| - 1 :: NextOf(fat, ch[k]) == ch[k + 1])
    && NextOf(fat, ch[|ch| - 1]) >= EOC
  }

  ghost predicate Disjoint(a: seq<nat>, b: seq<nat>) {
    forall j, k | 0 <= j < |a| && 0 <= k < |b| :: a[j] != b[k]
  }

  /** All chains of a volume: every one well formed, no cluster in two of them. */
  ghost predicate Chains(fat: Fat, chains: seq<seq<nat>>) {
    && (forall i | 0 <= i < |chains| :: IsChain(fat, chains[i]))
    && (forall i, j | 0 <= i < j < |chains| :: Disjoint(chains[i], chains[j]))
  }

  ghost predicate InNoChain(chains: seq<seq<nat>>, c: nat) {
    forall i | 0 <= i < |chains| :: c !in chains[i]
  }

  /** The table alone determines a chain from its first cluster. */
  lemma {:induction false} ChainIsDetermined(fat: Fat, a: seq<nat>, b: seq<nat>, k: nat)
    requires IsChain(fat, a) && IsChain(fat, b) && k < |a| && k < |b| && a[..k + 1] == b[..k + 1]
    ensures a == b
    decreases |a| - k
  {
    assert a[k] == a[..k + 1][k] && b[k] == b[..k + 1][k];
    if k == |a| - 1 {
      assert k == |b| - 1;
      assert a == a[..k + 1] && b == b[..k + 1];
    } else {
      assert NextOf(fat, a[k]) == a[k + 1];
      assert k < |b| - 1;
      assert a[..k + 2] == a[..k + 1] + [a[k + 1]] && b[..k + 2] == b[..k + 1] + [b[k + 1]];
      ChainIsDetermined(fat, a, b, k + 1);
    }
  }

  /** A free cluster belongs to no chain: entries inside a chain are never zero. */
  lemma FreeIsInNoChain(fat: Fat, chains: seq<seq<nat>>, c: nat)
    requires Chains(fat, chains) && c < |fat| && NextOf(fat, c) == 0
    ensures InNoChain(chains, c)
  {
    forall i | 0 <= i < |chains| ensures c !in chains[i] {
      var ch := chains[i];
      assert IsChain(fat, ch);
      forall k | 0 <= k < |ch| ensures NextOf(fat, ch[k]) != 0 {
        if k < |ch| - 1 { assert InRange(fat, ch[k + 1]); }
      }
    }
  }

  /** A chain does not notice entries outside it. */
  lemma ChainFrame(fat: Fat, fat': Fat, ch: seq<nat>)
    requires IsChain(fat, ch) && |fat'| == |fat| && forall k | 0 <= k < |ch| :: fat'[ch[k]] == fat[ch[k]]
    ensures IsChain(fat', ch)
  {}

  /** Appending a free cluster to one chain: the chain is one longer, the others stay. */
  lemma AppendToChain(fat: Fat, chains: seq<seq<nat>>, i: nat, c: nat, end: nat)
    requires Chains(fat, chains) && i < |chains| && InRange(fat, c) && NextOf(fat, c) == 0 && EOC <= end < 0x1000_0000
    ensures var ch := chains[i];
            var fat' := fat[ch[|ch| - 1] := c][c := end];
            Chains(fat', chains[i := ch + [c]])
  {
    FreeIsInNoChain(fat, chains, c);
    var ch := chains[i];
    assert IsChain(fat, ch) && InRange(fat, ch[|ch| - 1]);
    var fat' := fat[ch[|ch| - 1] := c][c := end];
    var longer := ch + [c];
    assert c !in ch;
    assert IsChain(fat', longer) by {
      forall k | 0 <= k < |longer| - 1 ensures NextOf(fat', longer[k]) == longer[k + 1] {
        if k < |ch| - 1 { assert NextOf(fat, ch[k]) == ch[k + 1]; }
      }
    }
    forall j | 0 <= j < |chains| && j != i ensures IsChain(fat', chains[j]) && Disjoint(chains[j], longer)
      && Disjoint(longer, chains[j]) {
      assert c !in chains[j];
      assert if i < j then Disjoint(chains[i], chains[j]) else Disjoint(chains[j], chains[i]);
      ChainFrame(fat, fat', chains[j]);
    }
  }

  /** A free cluster becomes a chain of its own. */
  lemma NewChain(fat: Fat, chains: seq<seq<nat>>, c: nat, end: nat)
    requires Chains(fat, chains) && InRange(fat, c) && NextOf(fat, c) == 0 && EOC <= end < 0x1000_0000
    ensures Chains(fat[c := end], chains + [[c]])
  {
    FreeIsInNoChain(fat, chains, c);
    forall j | 0 <= j < |chains| ensures IsChain(fat[c := end], chains[j]) && Disjoint(chains[j], [c]) {
      assert c !in chains[j];
      ChainFrame(fat, fat[c := end], chains[j]);
    }
  }

  /** The entries of the first `n` clusters of a chain set to zero. */
  ghost predicate FreedPrefix(fat: Fat, fat': Fat, ch: seq<nat>, n: nat) {
    && |fat'| == |fat| && n <= |ch|
    && (forall k | 0 <= k < n && ch[k] < |fat'| :: fat'[ch[k]] == 0)
    && (forall c | 0 <= c < |fat| && c !in ch[..n] :: fat'[c] == fat[c])
  }

  /** Freeing a chain takes it away and leaves every other chain as it was. */
  lemma FreeingOneChain(fat: Fat, fat': Fat, chains: seq<seq<nat>>, i: nat)
    requires Chains(fat, chains) && i < |chains| && FreedPrefix(fat, fat', chains[i], |chains[i]|)
    ensures Chains(fat', chains[..i] + chains[i + 1..])
    ensures forall k | 0 <= k < |chains[i]| :: NextOf(fat', chains[i][k]) == 0
  {
    var ch, rest := chains[i], chains[..i] + chains[i + 1..];
    assert IsChain(fat, ch) && ch[..|ch|] == ch;
    forall k | 0 <= k < |ch| ensures NextOf(fat', ch[k]) == 0 { assert InRange(fat, ch[k]); }
    forall j | 0 <= j < |rest| ensures IsChain(fat', rest[j]) {
      var o := if j < i then j else j + 1;
      assert rest[j] == chains[o] && IsChain(fat, chains[o]);
      assert if o < i then Disjoint(chains[o], ch) else Disjoint(ch, chains[o]);
      forall k | 0 <= k < |chains[o]| ensures fat'[chains[o][k]] == fat[chains[o][k]] {
        assert InRange(fat, chains[o][k]) && chains[o][k] !in ch;
      }
      ChainFrame(fat, fat', chains[o]);
    }
    forall j, k | 0 <= j < k < |rest| ensures Disjoint(rest[j], rest[k]) {
      assert Disjoint(chains[if j < i then j else j + 1], chains[if k < i then k else k + 1]);
    }
  }
}
