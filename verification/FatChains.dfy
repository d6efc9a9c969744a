/** Cluster chains of a FAT seen as an array of links: acyclicity, the disjoint union of chains that
    a volume's allocated clusters form, and what growing, cutting and freeing a chain does to it. */
module FatChains {

  type Fat = seq<nat>

  predicate InRange(f: Fat, c: int) {
    2 <= c < |f|
  }

  /** ch is a terminated chain: every cluster links to the next one, the last to an end mark. */
  ghost predicate IsChain(f: Fat, ch: seq<nat>) {
    && |ch| > 0
    && (forall i :: 0 <= i < |ch| ==> InRange(f, ch[i]))
    && (forall i {:trigger f[ch[i]]} :: 0 <= i < |ch| - 1 ==> f[ch[i]] == ch[i + 1])
    && f[ch[|ch| - 1]] >= |f|
  }

  ghost predicate Distinct(s: seq<nat>) {
    forall i, j :: 0 <= i < j < |s| ==> s[i] != s[j]
  }

  /** A terminated chain never visits a cluster twice. */
  lemma {:induction false} ChainIsAcyclic(f: Fat, ch: seq<nat>)
    requires IsChain(f, ch)
    ensures Distinct(ch)
  {
    forall i, j | 0 <= i < j < |ch|
      ensures ch[i] != ch[j]
    {
      ChainDiffers(f, ch, i, j);
    }
  }

  /** Two equal elements would be followed equally, past the end of the chain. */
  lemma {:induction false} ChainDiffers(f: Fat, ch: seq<nat>, i: nat, j: nat)
    requires IsChain(f, ch) && i < j < |ch|
    ensures ch[i] != ch[j]
    decreases |ch| - j
  {
    assert f[ch[i]] == ch[i + 1] && InRange(f, ch[i + 1]);
    if j < |ch| - 1 {
      ChainDiffers(f, ch, i + 1, j + 1);
      assert f[ch[j]] == ch[j + 1];
    }
  }

  /** The rest of a chain is a chain. */
  lemma ChainTail(f: Fat, ch: seq<nat>, k: nat)
    requires IsChain(f, ch) && k < |ch|
    ensures IsChain(f, ch[k..])
  {
  }

  /** Two chains that share a cluster agree from that cluster on. */
  lemma {:induction false} ChainsMerge(f: Fat, a: seq<nat>, i: nat, b: seq<nat>, j: nat)
    requires IsChain(f, a) && IsChain(f, b) && i < |a| && j < |b| && a[i] == b[j]
    ensures a[i..] == b[j..]
    decreases |a| - i
  {
    if i == |a| - 1 {
      assert j == |b| - 1 || InRange(f, f[b[j]]);
    } else {
      assert f[a[i]] == a[i + 1] && InRange(f, a[i + 1]);
      assert j < |b| - 1;
      ChainsMerge(f, a, i + 1, b, j + 1);
      assert a[i..] == [a[i]] + a[i + 1..] && b[j..] == [b[j]] + b[j + 1..];
    }
  }

  /** An entry outside a chain does not matter to it. */
  lemma ChainFrame(f: Fat, f': Fat, ch: seq<nat>)
    requires IsChain(f, ch) && |f'| == |f|
    requires forall i :: 0 <= i < |ch| ==> f'[ch[i]] == f[ch[i]]
    ensures IsChain(f', ch)
  {
  }

  ghost predicate Disjoint(a: seq<nat>, b: seq<nat>) {
    forall c :: c in a ==> c !in b
  }

  ghost predicate AllChains(f: Fat, chains: set<seq<nat>>) {
    forall ch :: ch in chains ==> IsChain(f, ch)
  }

  ghost predicate AllDisjoint(chains: set<seq<nat>>) {
    forall a, b :: a in chains && b in chains && a != b ==> Disjoint(a, b)
  }

  ghost predicate OnSome(chains: set<seq<nat>>, c: nat) {
    exists ch :: ch in chains && c in ch
  }

  ghost predicate AllCovered(f: Fat, chains: set<seq<nat>>) {
    forall c: nat :: InRange(f, c) && f[c] != 0 ==> OnSome(chains, c)
  }

  /** The allocated clusters are the disjoint union of the given chains. */
  ghost predicate Allocation(f: Fat, chains: set<seq<nat>>) {
    AllChains(f, chains) && AllDisjoint(chains) && AllCovered(f, chains)
  }

  /** Clusters with a zero entry, counted from cluster lo. */
  function FreeFrom(f: Fat, lo: nat): (n: nat)
    requires lo <= |f|
    ensures n <= |f| - lo
    decreases |f| - lo
  {
    if lo == |f| then 0 else (if f[lo] == 0 then 1 else 0) + FreeFrom(f, lo + 1)
  }

  function FreeCount(f: Fat): nat
    requires |f| >= 2
  {
    FreeFrom(f, 2)
  }

  /** One changed entry changes the count by at most one. */
  lemma {:induction false} FreeFromUpdate(f: Fat, lo: nat, c: nat, v: nat)
    requires lo <= |f| && c < |f|
    ensures FreeFrom(f[c := v], lo) ==
            FreeFrom(f, lo) + (if c < lo then 0 else (if v == 0 then 1 else 0) - (if f[c] == 0 then 1 else 0))
    decreases |f| - lo
  {
    if lo < |f| {
      FreeFromUpdate(f, lo + 1, c, v);
    }
  }

  lemma {:induction false} NoneFree(f: Fat, lo: nat)
    requires lo <= |f|
    ensures FreeFrom(f, lo) == 0 <==> forall c :: lo <= c < |f| ==> f[c] != 0
    decreases |f| - lo
  {
    if lo < |f| {
      NoneFree(f, lo + 1);
    }
  }

  /** A free cluster is on no chain. */
  lemma NotFree(f: Fat, ch: seq<nat>)
    requires IsChain(f, ch)
    ensures forall c :: c in ch ==> c < |f| && f[c] != 0
  {
    forall i | 0 <= i < |ch|
      ensures f[ch[i]] != 0
    {
      assert i < |ch| - 1 ==> f[ch[i]] == ch[i + 1] && InRange(f, ch[i + 1]);
    }
  }

  /** f' differs from f only on ch and ch2, and ch2 takes its clusters from ch or from the free ones. */
  ghost predicate Replaces(f: Fat, f': Fat, ch: seq<nat>, ch2: seq<nat>) {
    && |f'| == |f|
    && (forall c :: 0 <= c < |f| && c !in ch && c !in ch2 ==> f'[c] == f[c])
    && (forall c :: c in ch2 ==> c < |f| && (c in ch || f[c] == 0))
    && (forall c :: c in ch && c !in ch2 ==> c < |f| && f'[c] == 0)
  }

  lemma OthersStay(f: Fat, f': Fat, chains: set<seq<nat>>, ch: seq<nat>, ch2: seq<nat>, o: seq<nat>)
    requires AllChains(f, chains) && AllDisjoint(chains) && (ch in chains || ch == [])
    requires Replaces(f, f', ch, ch2) && o in chains && o != ch
    ensures IsChain(f', o) && Disjoint(o, ch2) && Disjoint(ch2, o)
  {
    NotFree(f, o);
    assert Disjoint(o, ch);
    forall i | 0 <= i < |o|
      ensures f'[o[i]] == f[o[i]]
    {
      assert o[i] in o;
    }
    ChainFrame(f, f', o);
  }

  lemma StillCovered(f: Fat, f': Fat, chains: set<seq<nat>>, ch: seq<nat>, ch2: seq<nat>, rest: set<seq<nat>>)
    requires AllCovered(f, chains) && Replaces(f, f', ch, ch2)
    requires chains - {ch} <= rest && (ch2 in rest || ch2 == [])
    ensures AllCovered(f', rest)
  {
    forall c: nat | InRange(f', c) && f'[c] != 0
      ensures OnSome(rest, c)
    {
      if c in ch2 {
        assert ch2 in rest;
      } else {
        assert OnSome(chains, c);
      }
    }
  }

  /** The union with one chain (or none) replaced by another (or none). */
  ghost function Replaced(chains: set<seq<nat>>, ch: seq<nat>, ch2: seq<nat>): set<seq<nat>> {
    if ch2 == [] then chains - {ch} else chains - {ch} + {ch2}
  }

  lemma RestAreChains(f: Fat, f': Fat, chains: set<seq<nat>>, ch: seq<nat>, ch2: seq<nat>)
    requires AllChains(f, chains) && AllDisjoint(chains) && (ch in chains || ch == [])
    requires Replaces(f, f', ch, ch2) && (IsChain(f', ch2) || ch2 == [])
    ensures AllChains(f', Replaced(chains, ch, ch2))
  {
    forall o | o in Replaced(chains, ch, ch2)
      ensures IsChain(f', o)
    {
      if o != ch2 {
        OthersStay(f, f', chains, ch, ch2, o);
      }
    }
  }

  lemma RestAreDisjoint(f: Fat, f': Fat, chains: set<seq<nat>>, ch: seq<nat>, ch2: seq<nat>)
    requires AllChains(f, chains) && AllDisjoint(chains) && (ch in chains || ch == [])
    requires Replaces(f, f', ch, ch2)
    ensures AllDisjoint(Replaced(chains, ch, ch2))
  {
    forall a, b | a in Replaced(chains, ch, ch2) && b in Replaced(chains, ch, ch2) && a != b
      ensures Disjoint(a, b)
    {
      if a != ch2 && a != ch {
        OthersStay(f, f', chains, ch, ch2, a);
      }
      if b != ch2 && b != ch {
        OthersStay(f, f', chains, ch, ch2, b);
      }
    }
  }

  /** Replacing one chain (or none) by another (or none) keeps the rest of the union. */
  lemma ReplaceKeepsAllocation(f: Fat, f': Fat, chains: set<seq<nat>>, ch: seq<nat>, ch2: seq<nat>)
    requires Allocation(f, chains) && (ch in chains || ch == [])
    requires Replaces(f, f', ch, ch2) && (IsChain(f', ch2) || ch2 == [])
    ensures Allocation(f', Replaced(chains, ch, ch2))
  {
    hide AllChains, AllDisjoint, AllCovered, Replaces, IsChain;
    RestAreChains(f, f', chains, ch, ch2);
    RestAreDisjoint(f, f', chains, ch, ch2);
    StillCovered(f, f', chains, ch, ch2, Replaced(chains, ch, ch2));
  }

  /** A new one-cluster chain on a free cluster. */
  lemma NewChainKeepsAllocation(f: Fat, chains: set<seq<nat>>, c: nat, end: nat)
    requires Allocation(f, chains) && InRange(f, c) && f[c] == 0 && end >= |f|
    ensures Allocation(f[c := end], chains + {[c]})
    ensures FreeCount(f[c := end]) == FreeCount(f) - 1
  {
    FreeFromUpdate(f, 2, c, end);
    NoEmptyChain(f, chains);
    ReplaceKeepsAllocation(f, f[c := end], chains, [], [c]);
    ReplacedNone(chains, [c]);
  }

  lemma ReplacedNone(chains: set<seq<nat>>, ch: seq<nat>)
    requires [] !in chains && ch != []
    ensures Replaced(chains, [], ch) == chains + {ch}
  {
  }

  lemma NoEmptyChain(f: Fat, chains: set<seq<nat>>)
    requires AllChains(f, chains)
    ensures [] !in chains
  {
    assert [] in chains ==> IsChain(f, []);
  }

  /** The table after create_chain has appended c to the chain whose last cluster is last. */
  function Linked(f: Fat, last: nat, c: nat, end: nat): (r: Fat)
    requires last < |f| && c < |f|
    ensures |r| == |f|
  {
    f[c := end][last := c]
  }

  lemma GrownIsChain(f: Fat, ch: seq<nat>, c: nat, end: nat)
    requires IsChain(f, ch) && InRange(f, c) && f[c] == 0 && end >= |f|
    ensures c !in ch && InRange(f, ch[|ch| - 1])
    ensures IsChain(Linked(f, ch[|ch| - 1], c, end), ch + [c])
  {
    NotFree(f, ch);
    ChainIsAcyclic(f, ch);
    var grown := ch + [c];
    var f' := Linked(f, ch[|ch| - 1], c, end);
    forall i | 0 <= i < |ch|
      ensures f'[grown[i]] == grown[i + 1]
    {
      assert grown[i] == ch[i] && ch[i] != c;
      assert i < |ch| - 1 ==> ch[i] != ch[|ch| - 1];
      assert i < |ch| - 1 ==> grown[i + 1] == ch[i + 1] && f[ch[i]] == ch[i + 1];
    }
  }

  /** A chain grown by a free cluster. */
  lemma GrowKeepsAllocation(f: Fat, chains: set<seq<nat>>, ch: seq<nat>, c: nat, end: nat)
    requires Allocation(f, chains) && ch in chains && InRange(f, c) && f[c] == 0 && end >= |f|
    ensures InRange(f, ch[|ch| - 1])
    ensures var f' := Linked(f, ch[|ch| - 1], c, end);
            Allocation(f', chains - {ch} + {ch + [c]}) && FreeCount(f') == FreeCount(f) - 1
  {
    var last := ch[|ch| - 1];
    GrownIsChain(f, ch, c, end);
    NotFree(f, ch);
    FreeFromUpdate(f, 2, c, end);
    FreeFromUpdate(f[c := end], 2, last, c);
    ReplaceKeepsAllocation(f, Linked(f, last, c, end), chains, ch, ch + [c]);
  }

  /** f with every cluster of s marked free. */
  function Freed(f: Fat, s: seq<nat>): (r: Fat)
    ensures |r| == |f|
    ensures forall c :: 0 <= c < |f| ==> r[c] == if c in s then 0 else f[c]
  {
    seq(|f|, c requires 0 <= c < |f| => if c in s then 0 else f[c])
  }

  /** Removing a whole chain from the union. */
  lemma FreeKeepsAllocation(f: Fat, chains: set<seq<nat>>, ch: seq<nat>)
    requires Allocation(f, chains) && ch in chains
    ensures Allocation(Freed(f, ch), chains - {ch})
  {
    NotFree(f, ch);
    ReplaceKeepsAllocation(f, Freed(f, ch), chains, ch, []);
  }

  lemma CutIsChain(f: Fat, ch: seq<nat>, k: nat, end: nat)
    requires IsChain(f, ch) && k < |ch| - 1 && end >= |f|
    ensures InRange(f, ch[k]) && IsChain(Freed(f[ch[k] := end], ch[k + 1..]), ch[..k + 1])
    ensures Disjoint(ch[..k + 1], ch[k + 1..])
  {
    var f' := Freed(f[ch[k] := end], ch[k + 1..]);
    var kept := ch[..k + 1];
    ChainIsAcyclic(f, ch);
    forall i | 0 <= i < k
      ensures f'[ch[i]] == ch[i + 1]
    {
      assert ch[i] != ch[k] && f[ch[i]] == ch[i + 1];
    }
  }

  lemma CutReplaces(f: Fat, ch: seq<nat>, k: nat, end: nat)
    requires k < |ch| - 1 && ch[k] < |f| && (forall c :: c in ch ==> c < |f|)
    requires Disjoint(ch[..k + 1], ch[k + 1..])
    ensures Replaces(f, Freed(f[ch[k] := end], ch[k + 1..]), ch, ch[..k + 1])
  {
    var kept := ch[..k + 1];
    assert ch == kept + ch[k + 1..];
    assert kept[k] == ch[k] && ch[k] in kept;
  }

  /** Cutting a chain after element k and freeing the rest. */
  lemma CutKeepsAllocation(f: Fat, chains: set<seq<nat>>, ch: seq<nat>, k: nat, end: nat)
    requires Allocation(f, chains) && ch in chains && k < |ch| - 1 && end >= |f|
    ensures InRange(f, ch[k])
    ensures Allocation(Freed(f[ch[k] := end], ch[k + 1..]), chains - {ch} + {ch[..k + 1]})
  {
    CutIsChain(f, ch, k, end);
    NotFree(f, ch);
    hide IsChain, Replaces;
    CutReplaces(f, ch, k, end);
    ReplaceKeepsAllocation(f, Freed(f[ch[k] := end], ch[k + 1..]), chains, ch, ch[..k + 1]);
  }
}
