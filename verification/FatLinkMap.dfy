/** The link map of fast seek: a cluster chain as a table of contiguous fragments. */
module FatLinkMap {
  import opened FatChains

  /** len clusters from cluster top on. */
  datatype Fragment = Fragment(len: nat, top: nat)

  function Clusters(top: nat, len: nat): (r: seq<nat>)
    ensures |r| == len && forall i :: 0 <= i < len ==> r[i] == top + i
  {
    seq(len, i requires 0 <= i < len => top + i)
  }

  /** The chain that a list of fragments stands for. */
  function Expand(fr: seq<Fragment>): seq<nat> {
    if fr == [] then [] else Clusters(fr[0].top, fr[0].len) + Expand(fr[1..])
  }

  /** How many clusters follow each other at the head of a chain. */
  function RunLength(ch: seq<nat>): (n: nat)
    requires ch != []
    ensures 1 <= n <= |ch|
  {
    if |ch| > 1 && ch[1] == ch[0] + 1 then 1 + RunLength(ch[1..]) else 1
  }

  /** A chain cut into fragments that are as long as they can be. */
  function Fragments(ch: seq<nat>): seq<Fragment>
    decreases |ch|
  {
    if ch == [] then [] else [Fragment(RunLength(ch), ch[0])] + Fragments(ch[RunLength(ch)..])
  }

  lemma {:induction false} RunIsContiguous(ch: seq<nat>)
    requires ch != []
    ensures forall i :: 0 <= i < RunLength(ch) ==> ch[i] == ch[0] + i
    ensures RunLength(ch) < |ch| ==> ch[RunLength(ch)] != ch[0] + RunLength(ch)
  {
    if |ch| > 1 && ch[1] == ch[0] + 1 {
      RunIsContiguous(ch[1..]);
      forall i | 0 <= i < RunLength(ch)
        ensures ch[i] == ch[0] + i
      {
        assert i > 0 ==> ch[1..][i - 1] == ch[i];
      }
    }
  }

  /** A run that stops where the next cluster does not follow. */
  lemma {:induction false} RunLengthIs(ch: seq<nat>, n: nat)
    requires 1 <= n <= |ch| && (forall i :: 0 <= i < n ==> ch[i] == ch[0] + i) && (n < |ch| ==> ch[n] != ch[0] + n)
    ensures RunLength(ch) == n
  {
    if n > 1 {
      assert ch[1] == ch[0] + 1;
      RunLengthIs(ch[1..], n - 1);
    }
  }

  /** The fragments of a chain decode to exactly that chain. */
  lemma {:induction false} ExpandFragments(ch: seq<nat>)
    ensures Expand(Fragments(ch)) == ch
    decreases |ch|
  {
    if ch != [] {
      var n := RunLength(ch);
      RunIsContiguous(ch);
      ExpandFragments(ch[n..]);
      assert Fragments(ch)[1..] == Fragments(ch[n..]);
      assert Clusters(ch[0], n) == ch[..n];
      assert ch == ch[..n] + ch[n..];
    }
  }

  /** A list of fragments as the table stores it: length and top of each. */
  function Encode(fr: seq<Fragment>): (r: seq<nat>)
    ensures |r| == 2 * |fr|
  {
    if fr == [] then [] else [fr[0].len, fr[0].top] + Encode(fr[1..])
  }

  lemma {:induction false} EncodeAppend(fr: seq<Fragment>, f: Fragment)
    ensures Encode(fr + [f]) == Encode(fr) + [f.len, f.top]
  {
    if fr != [] {
      EncodeAppend(fr[1..], f);
      assert (fr + [f])[1..] == fr[1..] + [f];
    } else {
      assert [f][1..] == [] && fr + [f] == [f];
    }
  }

  lemma {:induction false} EncodeAt(fr: seq<Fragment>, j: nat)
    requires j < |fr|
    ensures Encode(fr)[2 * j] == fr[j].len && Encode(fr)[2 * j + 1] == fr[j].top
  {
    if j > 0 {
      EncodeAt(fr[1..], j - 1);
      assert Encode(fr)[2 * j] == Encode(fr[1..])[2 * (j - 1)] && Encode(fr)[2 * j + 1] == Encode(fr[1..])[2 * (j - 1) + 1];
    }
  }

  /** The table holds the map of the chain: its size, the fragments, and a 0. */
  ghost predicate MapOf(t: seq<nat>, ch: seq<nat>) {
    var fr := Fragments(ch);
    && 2 * |fr| + 2 <= |t|
    && t[1..2 * |fr| + 1] == Encode(fr) && t[2 * |fr| + 1] == 0
  }

  lemma {:induction false} FragmentsNotEmpty(ch: seq<nat>, j: nat)
    requires j < |Fragments(ch)|
    ensures Fragments(ch)[j].len > 0
    decreases |ch|
  {
    if j > 0 {
      FragmentsNotEmpty(ch[RunLength(ch)..], j - 1);
    }
  }

  /** What the entries of the table that belong to fragment j hold. */
  lemma MapEntries(t: seq<nat>, ch: seq<nat>, j: nat)
    requires MapOf(t, ch) && j <= |Fragments(ch)|
    ensures 2 * j + 1 < |t| && (j == |Fragments(ch)| ==> t[2 * j + 1] == 0)
    ensures j < |Fragments(ch)| ==>
              2 * j + 2 < |t| && t[2 * j + 1] == Fragments(ch)[j].len > 0 && t[2 * j + 2] == Fragments(ch)[j].top
  {
    var fr := Fragments(ch);
    if j < |fr| {
      EncodeAt(fr, j);
      FragmentsNotEmpty(ch, j);
      assert t[2 * j + 1] == t[1..2 * |fr| + 1][2 * j] && t[2 * j + 2] == t[1..2 * |fr| + 1][2 * j + 1];
    }
  }

  /** Skipping the first fragment of a list. */
  lemma ExpandSkip(fr: seq<Fragment>, j: nat, k: nat)
    requires j < |fr| && k < |Expand(fr[j..])|
    ensures if k < fr[j].len then Expand(fr[j..])[k] == fr[j].top + k
            else k - fr[j].len < |Expand(fr[j + 1..])| && Expand(fr[j..])[k] == Expand(fr[j + 1..])[k - fr[j].len]
  {
    assert fr[j..][1..] == fr[j + 1..];
  }

  /** The table lookup of fast seek: cluster k of the chain, from the map alone. */
  method LookUp(t: array<nat>, k: nat, ghost ch: seq<nat>) returns (found: bool, clst: nat)
    requires MapOf(t[..], ch)
    ensures found <==> k < |ch|
    ensures found ==> clst == ch[k]
  {
    hide MapOf, Fragments, Expand;
    ExpandFragments(ch);
    ghost var fr := Fragments(ch);
    var i: nat, cl: nat, ncl: nat := 1, k, 0;
    ghost var j := 0;
    assert fr[0..] == fr;
    while true
      invariant j <= |fr| && i == 2 * j + 1
      invariant k < |ch| <==> cl < |Expand(fr[j..])|
      invariant k < |ch| ==> ch[k] == Expand(fr[j..])[cl]
      decreases |fr| - j
    {
      MapEntries(t[..], ch, j);
      ncl := t[i];
      if ncl == 0 {
        ExpandNothing(fr, j);
        return false, 0;
      }
      i := i + 1;
      ExpandSize(fr, j);
      if cl < |Expand(fr[j..])| {
        ExpandSkip(fr, j, cl);
      }
      if cl < ncl { break; }
      cl := cl - ncl;
      i := i + 1;
      j := j + 1;
    }
    found, clst := true, cl + t[i];
  }

  lemma ExpandNothing(fr: seq<Fragment>, j: nat)
    requires j <= |fr|
    ensures j == |fr| ==> Expand(fr[j..]) == []
  {
  }

  lemma ExpandSize(fr: seq<Fragment>, j: nat)
    requires j < |fr|
    ensures |Expand(fr[j..])| == fr[j].len + |Expand(fr[j + 1..])|
  {
    assert fr[j..][1..] == fr[j + 1..];
  }
}
