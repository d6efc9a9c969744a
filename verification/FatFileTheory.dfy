/** Chains, sectors and byte sequences as the file operations change them. */
module FatFileTheory {
  import opened Basics
  import opened FatCodec
  import opened FatVolume
  import opened FatChains
  import opened FatSectors
  import opened FatAllocator

  /** The table and FATFS.free_clust. */
  datatype Space = Space(fat: Fat, free: Dword)

  ghost function SpaceOf(fs: Volume): Space
    reads fs`fat, fs`freeClust
  {
    Space(fs.fat, fs.freeClust)
  }

  /** A right count has stayed right. */
  ghost predicate CountKept(s0: Space, s: Space) {
    CountIsRight(s0.free, s0.fat) ==> CountIsRight(s.free, s.fat)
  }

  /** The chain has only been extended, by clusters that were free, and no other entry has changed. */
  ghost predicate Grown(s0: Space, ch0: seq<nat>, s: Space, ch: seq<nat>) {
    && |s.fat| == |s0.fat|
    && ch0 <= ch && (ch == ch0 ==> s == s0)
    && (forall c :: c in ch && c !in ch0 ==> c < |s0.fat| && s0.fat[c] == 0)
    && (forall c :: 0 <= c < |s0.fat| && c !in ch ==> s.fat[c] == s0.fat[c])
    && CountKept(s0, s)
  }

  /** Only sectors of the list s may have changed. */
  ghost predicate OnlyChanged(d0: seq<Sector>, d: seq<Sector>, s: seq<nat>) {
    |d| == |d0| && forall k: nat :: k < |d0| && k !in s ==> d[k] == d0[k]
  }

  lemma InDiskIntro(d: seq<Sector>, s: seq<nat>)
    requires forall x :: x in s ==> x < |d|
    ensures InDisk(d, s)
  {
    forall i | 0 <= i < |s|
      ensures s[i] < |d|
    {
      assert s[i] in s;
    }
  }

  /** A sector past both FAT copies. */
  ghost predicate DataSector(g: Geometry, s: nat) {
    g.fatbase + (if g.nFats == 2 then 2 * g.fsize else g.fsize) <= s && s != 0 && !InFat(g, s)
  }

  lemma OneSectorRun(d: seq<Sector>, s: nat, b: seq<Byte>)
    requires s < |d| && |b| == 512
    ensures SetRun(d, s, b, 1) == d[s := b]
  {
    assert ImageSector(b, 0) == b;
  }

  /** The sectors of a chain of the volume are distinct sectors of its data area. */
  lemma ChainSectors(fs: Volume, ch: seq<nat>)
    requires fs.Valid() && 2 <= fs.g.nFatent && (ch == [] || IsChain(fs.fat, ch))
    ensures Distinct(FileSectors(fs.g, ch)) && InDisk(fs.data, FileSectors(fs.g, ch))
    ensures forall s :: s in FileSectors(fs.g, ch) ==> DataSector(fs.g, s) && s < fs.sectors && s < |fs.data|
    ensures forall k :: 0 <= k < |FileSectors(fs.g, ch)| ==> FileSectors(fs.g, ch)[k] != 0
    ensures fs.g.csize >= 1
  {
    hide FileSectors, Clust2Sect, Volume.Decoded, Volume.WindowCoherent, Volume.DiskCoherent, Volume.MirrorCoherent;
    if ch != [] {
      ChainIsAcyclic(fs.fat, ch);
    }
    FileSectorsInside(fs.g, fs.sectors, ch);
    FileSectorsDistinct(fs.g, ch);
    InDiskIntro(fs.data, FileSectors(fs.g, ch));
    forall k | 0 <= k < |FileSectors(fs.g, ch)|
      ensures FileSectors(fs.g, ch)[k] != 0
    {
      assert FileSectors(fs.g, ch)[k] in FileSectors(fs.g, ch);
    }
  }

  // ---------- positions ----------

  /** The sector of a file that byte p is in. */
  function SectorIndex(p: nat): nat {
    p / 512
  }

  predicate OnBoundary(p: nat) {
    p % 512 == 0
  }

  lemma SectorZero()
    ensures SectorIndex(0) == 0 && OnBoundary(0)
  {
  }

  lemma BoundarySector(p: nat)
    requires OnBoundary(p)
    ensures 512 * SectorIndex(p) == p
  {
  }

  lemma SectorBefore(p: nat)
    requires p > 0
    ensures SectorIndex(p - 1) == if OnBoundary(p) then SectorIndex(p) - 1 else SectorIndex(p)
  {
  }

  /** Cluster i of a file with n sectors per cluster holds the bytes from i * 512n on. */
  lemma ClusterOfByte(x: nat, i: nat, n: nat)
    requires n >= 1 && i * n <= SectorIndex(x) < i * n + n
    ensures x / (n * 512) == i && i * (n * 512) <= x < i * (n * 512) + n * 512
  {
    assert 512 * (i * n) == i * (n * 512);
    assert x - i * (n * 512) < n * 512 && x >= i * (n * 512);
    QuotientIs(x, n * 512, i, x - i * (n * 512));
  }

  /** A byte of cluster i, given by its distance from the start of the cluster. */
  lemma ByteOfCluster(i: nat, n: nat, r: nat)
    requires n >= 1 && r < n * 512
    ensures i * n <= SectorIndex(i * (n * 512) + r) == i * n + SectorIndex(r) < i * n + n
    ensures OnBoundary(i * (n * 512) + r) <==> OnBoundary(r)
    ensures (i + 1) * (n * 512) == i * (n * 512) + n * 512
  {
    assert 512 * (i * n) == i * (n * 512);
    assert (i + 1) * (n * 512) == i * (n * 512) + n * 512;
    var q := i * n;
    assert (512 * q + r) / 512 == q + r / 512 && (512 * q + r) % 512 == r % 512;
  }

  lemma RestBelow(r: nat, n: nat)
    requires r <= n * 512 && !OnBoundary(r)
    ensures r < n * 512
  {
    assert (n * 512) % 512 == 0;
  }

  lemma RestOnBoundary(i: nat, n: nat, r: nat)
    requires OnBoundary(r)
    ensures OnBoundary(i * (n * 512) + r)
  {
    var q := i * n;
    assert i * (n * 512) == 512 * q;
    assert (512 * q + r) % 512 == r % 512;
  }

  // ---------- growing the chain of a file ----------

  lemma GrownTransitive(s0: Space, a: seq<nat>, s1: Space, b: seq<nat>, s2: Space, c: seq<nat>)
    requires Grown(s0, a, s1, b) && Grown(s1, b, s2, c)
    ensures Grown(s0, a, s2, c)
  {
    hide CountIsRight;
    assert c == a ==> |b| == |a| && b == a;
    forall k | k in c && k !in a
      ensures k < |s0.fat| && s0.fat[k] == 0
    {
      if k in b {
      } else {
        assert k < |s1.fat| && s1.fat[k] == 0;
      }
    }
    forall k | 0 <= k < |s0.fat| && k !in c
      ensures s2.fat[k] == s0.fat[k]
    {
      PrefixMember(b, c, k);
    }
  }

  lemma PrefixMember(a: seq<nat>, b: seq<nat>, k: nat)
    requires a <= b
    ensures k in a ==> k in b
  {
    if k in a {
      var i :| 0 <= i < |a| && a[i] == k;
      assert b[i] == k;
    }
  }

  /** create_chain on a new file. */
  lemma ChainStarted(s: Space, t: Space, ncl: nat, end: nat)
    requires Created(s.fat, t.fat, 0, ncl, end) && 1 < ncl != DISK_ERROR && |s.fat| <= end && CountKept(s, t)
    ensures IsChain(t.fat, [ncl]) && Grown(s, [], t, [ncl])
  {
    hide CountIsRight;
  }

  /** create_chain on cluster ch[i] of a file either follows the chain or extends it at its end. */
  lemma ChainFollowed(s: Space, t: Space, ch: seq<nat>, i: nat, ncl: nat, end: nat)
    requires IsChain(s.fat, ch) && i < |ch| && Created(s.fat, t.fat, ch[i], ncl, end) && 1 < ncl != DISK_ERROR && |s.fat| <= end
    requires CountKept(s, t) && (t.fat == s.fat ==> t == s)
    ensures if i + 1 < |ch| then t == s && ncl == ch[i + 1]
            else IsChain(t.fat, ch + [ncl]) && Grown(s, ch, t, ch + [ncl])
  {
    hide CountIsRight;
    var f := s.fat;
    assert InRange(f, ch[i]);
    if i + 1 < |ch| {
      assert f[ch[i]] == ch[i + 1] && InRange(f, ch[i + 1]);
    } else {
      GrownIsChain(f, ch, ncl, end);
    }
  }

  /** When create_chain finds no free cluster nothing has changed, no cluster is free, and there was no next
      cluster. */
  lemma ChainFull(s: Space, t: Space, ch: seq<nat>, i: nat, end: nat)
    requires ch == [] || (IsChain(s.fat, ch) && i < |ch|)
    requires Created(s.fat, t.fat, if ch == [] then 0 else ch[i], 0, end) && (t.fat == s.fat ==> t == s)
    ensures t == s && NoneIsFree(s.fat) && (ch != [] ==> i + 1 == |ch|)
  {
    hide CountIsRight;
    if ch != [] {
      assert InRange(s.fat, ch[i]);
      assert i < |ch| - 1 ==> s.fat[ch[i]] == ch[i + 1] && InRange(s.fat, ch[i + 1]);
    }
  }

  lemma NoneTaken(f: Fat, r: Fat, clst: nat, end: nat, strayed: bool)
    requires InRange(f, clst) && f[clst] > 1 && if strayed then TookCluster(f, r, clst, 0, end) else Created(f, r, clst, 0, end)
    ensures r == f && NoneIsFree(f)
  {
  }

  /** An unreadable link of the last cluster of a file does no harm; one of an earlier cluster makes create_chain
      cut the chain behind it. */
  lemma ChainStrayed(f: Fat, r: Fat, ch: seq<nat>, i: nat, ncl: nat, end: nat)
    requires IsChain(f, ch) && i < |ch| && TookCluster(f, r, ch[i], ncl, end) && |f| <= end
    ensures f[ch[i]] != 0 && (i + 1 == |ch| ==> Created(f, r, ch[i], ncl, end))
    ensures 1 < ncl != DISK_ERROR ==> IsChain(r, ch[..i + 1] + [ncl])
    ensures 1 < ncl != DISK_ERROR && i + 1 < |ch| ==> ncl != ch[i + 1] && !(ch <= ch[..i + 1] + [ncl])
  {
    assert InRange(f, ch[i]);
    if 1 < ncl != DISK_ERROR {
      StrayCutsChain(f, r, ch, i, ncl, end);
      NotFree(f, ch);
      if i + 1 < |ch| {
        assert (ch[..i + 1] + [ncl])[i + 1] == ncl;
      }
    }
  }

  /** Sector k of two byte sequences put one after the other. */
  lemma AppendedSector(a: seq<Byte>, b: seq<Byte>, n: nat, k: nat)
    requires |a| == 512 * n && 512 * k + 512 <= |a + b|
    ensures ImageSector(a + b, k) == if k < n then ImageSector(a, k) else ImageSector(b, k - n)
  {
  }

  lemma GrownReflexive(s: Space, ch: seq<nat>)
    ensures Grown(s, ch, s, ch)
  {
  }

  lemma FirstOfChain(f: Fat, ch: seq<nat>)
    requires IsChain(f, ch)
    ensures ch != [] && 2 <= ch[0] < |f|
  {
  }

  lemma OneGathered(d: seq<Sector>, s: nat)
    requires s < |d|
    ensures Gather(d, Run(s, 1)) == d[s]
  {
    GatherAt(d, Run(s, 1), 0);
    WholeSector(Gather(d, Run(s, 1)));
  }

  /** The bytes b of n sectors with sector k replaced. */
  lemma ReplacedSector(b: seq<Byte>, k: nat, c: seq<Byte>, n: nat)
    requires |b| == 512 * n && k < n && |c| == 512
    ensures Splice(b, 512 * k, c)[..512 * k] == b[..512 * k]
    ensures forall j: nat :: j < n ==> ImageSector(Splice(b, 512 * k, c), j) == if j == k then c else ImageSector(b, j)
  {
    forall j: nat | j < n
      ensures ImageSector(Splice(b, 512 * k, c), j) == if j == k then c else ImageSector(b, j)
    {
      SpliceSectors(b, k, c, 1, j);
      WholeSector(c);
    }
  }

  lemma BufferSpliced(b: seq<Byte>, r: seq<Byte>, o: nat, part: seq<Byte>)
    requires |b| == |r| == 512 && o + |part| <= 512
    requires forall i :: 0 <= i < 512 ==> r[i] == if o <= i < o + |part| then part[i - o] else b[i]
    ensures r == Splice(b, o, part)
  {
  }

  // ---------- byte sequences ----------

  /** The sequence c with d put at position p, extending c if d reaches past its end. */
  function Overwrite(c: seq<Byte>, p: nat, d: seq<Byte>): (r: seq<Byte>)
    requires p <= |c|
    ensures |r| == if p + |d| <= |c| then |c| else p + |d|
  {
    c[..p] + d + (if p + |d| <= |c| then c[p + |d|..] else [])
  }

  /** Two transfers in a row are one. */
  lemma OverwriteTwice(c: seq<Byte>, p: nat, d: seq<Byte>, e: seq<Byte>)
    requires p <= |c|
    ensures Overwrite(Overwrite(c, p, d), p + |d|, e) == Overwrite(c, p, d + e)
  {
  }

  /** a and b agree up to position n. */
  ghost predicate SamePrefix(a: seq<Byte>, b: seq<Byte>, n: nat) {
    n <= |a| && n <= |b| && a[..n] == b[..n]
  }

  lemma PrefixOfLonger(a: seq<Byte>, b: seq<Byte>, n: nat)
    requires n <= |a| && (a <= b || a[..n] <= b)
    ensures SamePrefix(a, b, n)
  {
    assert a <= b ==> a[..n] == b[..n];
  }

  /** Fetching the sector behind position n, or filling it with what the buffer holds. */
  lemma Refilled(a: seq<Byte>, b: seq<Byte>, c: seq<Byte>, n: nat)
    requires SamePrefix(a, b, n) && n <= |c| && c[..n] == b[..n]
    ensures SamePrefix(a, c, n)
  {
  }

  lemma LongerPrefix(a: seq<Byte>, b: seq<Byte>, n: nat, p: nat)
    requires n <= |a|
    ensures a <= b && p < n ==> SamePrefix(a, b, n)
  {
    assert a <= b ==> a[..n] == b[..n];
  }

  /** The same as TransferIsOverwrite, in the terms of a round of f_write. */
  lemma StepIsOverwrite(b: seq<Byte>, b1: seq<Byte>, n: nat, p: nat, d: seq<Byte>)
    requires p <= n <= |b| && p + |d| <= |b1| && n <= |b1| && SamePrefix(b, b1, p) && (p < n ==> SamePrefix(b, b1, n))
    ensures Splice(b1, p, d)[..if n <= p + |d| then p + |d| else n] == Overwrite(b[..n], p, d)
  {
    TransferIsOverwrite(b, b1, n, p, d);
  }

  /** A transfer of e behind one of w, which has lost everything behind it if it is now true. */
  lemma OverwriteOn(c: seq<Byte>, m: nat, p: nat, w: seq<Byte>, was: bool, now: bool, b: seq<Byte>, n: nat, e: seq<Byte>)
    requires p <= m <= |c| && (was ==> now && m == p) && p + |w| <= |b| && (!was ==> p + |w| <= n <= |b|)
    requires b[..if was then p + |w| else n] == Overwrite(c[..m], p, w)
    ensures Overwrite(b[..if now then p + |w| else n], p + |w|, e) == Overwrite(if now then c[..p] else c[..m], p, w + e)
  {
    if now && !was {
      assert c[..m][..p] == c[..p];
      assert b[..p + |w|] == b[..n][..p + |w|] == c[..p] + w == Overwrite(c[..p], p, w);
    }
    OverwriteTwice(if now then c[..p] else c[..m], p, w, e);
  }

  lemma OverwriteNothing(c: seq<Byte>, p: nat)
    requires p <= |c|
    ensures Overwrite(c, p, []) == c
  {
  }

  /** Bytes b whose first n are the content, after a transfer at p; between, the part of b past the
      content may have been extended and, from the sector of p on, replaced. */
  lemma TransferIsOverwrite(b: seq<Byte>, b1: seq<Byte>, n: nat, p: nat, d: seq<Byte>)
    requires p <= n <= |b| && p + |d| <= |b1| && n <= |b1|
    requires b1[..p] == b[..p] && (p < n ==> b1[..n] == b[..n])
    ensures Splice(b1, p, d)[..if n <= p + |d| then p + |d| else n] == Overwrite(b[..n], p, d)
  {
    if n <= p + |d| {
      assert Splice(b1, p, d)[..p + |d|] == b1[..p] + d;
    } else {
      assert Splice(b1, p, d)[..n] == b1[..p] + d + b1[..n][p + |d|..];
    }
  }

  lemma OnlyChangedReflexive(d: seq<Sector>, s: seq<nat>)
    ensures OnlyChanged(d, d, s)
  {
  }

  lemma OnlyChangedTransitive(d0: seq<Sector>, d1: seq<Sector>, d2: seq<Sector>, s: seq<nat>)
    requires OnlyChanged(d0, d1, s) && OnlyChanged(d1, d2, s)
    ensures OnlyChanged(d0, d2, s)
  {
  }

  /** Positions inside one sector. */
  lemma SameSectorAfter(p: nat, n: nat)
    requires n > 0 && p % 512 + n <= 512
    ensures SectorIndex(p + n - 1) == SectorIndex(p)
    ensures !OnBoundary(p + n) ==> SectorIndex(p + n) == SectorIndex(p)
  {
  }

  /** Two changes in a row, the second on a chain that extends the first. */
  lemma ChangedByGrown(g: Geometry, s0: Space, a: seq<nat>, s: Space, b: seq<nat>, d0: seq<Sector>, d1: seq<Sector>, d2: seq<Sector>)
    requires 2 <= g.nFatent && Grown(s0, a, s, b)
    requires OnlyChanged(d0, d1, FileSectors(g, a)) && OnlyChanged(d1, d2, FileSectors(g, b))
    ensures OnlyChanged(d0, d2, FileSectors(g, b))
  {
    hide FileSectors;
    FileSectorsPrefix(g, a, b);
    forall k: nat | k < |d0| && k !in FileSectors(g, b)
      ensures d2[k] == d0[k]
    {
      PrefixMember(FileSectors(g, a), FileSectors(g, b), k);
    }
  }

  lemma {:induction false} FileSectorsPrefix(g: Geometry, a: seq<nat>, b: seq<nat>)
    requires 2 <= g.nFatent && a <= b
    ensures FileSectors(g, a) <= FileSectors(g, b)
    decreases |a|
  {
    if a != [] {
      assert a[0] == b[0];
      FileSectorsPrefix(g, a[1..], b[1..]);
    }
  }

  lemma SliceSector(b: seq<Byte>, k: nat, n: nat, j: nat)
    requires 512 * (k + n) <= |b| && j < n
    ensures ImageSector(b[512 * k..512 * (k + n)], j) == ImageSector(b, k + j)
  {
    SubSlice(b, 512 * k, 512 * n, 512 * j, 512);
  }

  lemma SubSlice(b: seq<Byte>, lo: nat, len: nat, o: nat, n: nat)
    requires lo + len <= |b| && o + n <= len
    ensures b[lo..lo + len][o..o + n] == b[lo + o..lo + o + n]
  {
    var hi := lo + o + n;
    assert b[lo..lo + len] == b[lo..][..len];
    assert b[lo + o..hi] == b[lo + o..][..n];
  }

  lemma WholeSector(c: seq<Byte>)
    requires |c| == 512
    ensures ImageSector(c, 0) == c
  {
    assert ImageSector(c, 0) == c;
  }

  /** Byte sequences of n sectors with the same sectors are equal. */
  lemma SameSectors(a: seq<Byte>, b: seq<Byte>, n: nat)
    requires |a| == |b| == 512 * n
    requires forall j: nat :: j < n ==> ImageSector(a, j) == ImageSector(b, j)
    ensures a == b
  {
    forall i | 0 <= i < |a|
      ensures a[i] == b[i]
    {
      var j, o := i / 512, i % 512;
      assert i == 512 * j + o;
      assert ImageSector(a, j)[o] == a[i] && ImageSector(b, j)[o] == b[i];
    }
  }

  lemma SliceOfPrefix(b: seq<Byte>, n: nat, p: nat, q: nat)
    requires p <= q <= n <= |b|
    ensures b[..n][p..q] == b[p..q]
  {
  }

  // ---------- cutting the chain of a file ----------

  /** The table after the chain ch has been cut down to its first n clusters. */
  function Cut(f: Fat, ch: seq<nat>, n: nat, end: nat): (r: Fat)
    requires n <= |ch| && (n > 0 ==> ch[n - 1] < |f|)
    ensures |r| == |f|
  {
    if n == 0 then Freed(f, ch) else if n < |ch| then Freed(f[ch[n - 1] := end], ch[n..]) else f
  }

  /** The walk that remove_chain does from the cluster after the cut. */
  lemma CutWalk(f: Fat, ch: seq<nat>, n: nat, end: nat)
    requires IsChain(f, ch) && 0 < n < |ch| && |f| <= end
    ensures InRange(f, ch[n - 1]) && ch[n] >= 2 && ch[n] < |f| && f[ch[n - 1]] == ch[n]
    ensures FreeWalk(f[ch[n - 1] := end], ch[n]) == (Cut(f, ch, n, end), Ok)
  {
    var f1 := f[ch[n - 1] := end];
    ChainIsAcyclic(f, ch);
    ChainTail(f, ch, n);
    assert InRange(f, ch[n]);
    forall i | 0 <= i < |ch[n..]|
      ensures f1[ch[n..][i]] == f[ch[n..][i]]
    {
      assert ch[n..][i] == ch[n + i] != ch[n - 1];
    }
    ChainFrame(f, f1, ch[n..]);
    WalkFreesChain(f1, ch[n..]);
  }

  lemma LastInChain(f: Fat, ch: seq<nat>, i: nat)
    requires IsChain(f, ch) && i < |ch|
    ensures InRange(f, ch[i])
    ensures if i + 1 < |ch| then f[ch[i]] == ch[i + 1] && InRange(f, ch[i + 1]) else f[ch[i]] >= |f|
  {
    if i + 1 < |ch| {
      assert f[ch[i]] == ch[i + 1] && InRange(f, ch[i + 1]);
    }
  }

  lemma CutStaysChain(f: Fat, ch: seq<nat>, n: nat, end: nat)
    requires IsChain(f, ch) && 0 < n <= |ch| && |f| <= end
    ensures InRange(f, ch[n - 1]) && IsChain(Cut(f, ch, n, end), ch[..n])
  {
    assert InRange(f, ch[n - 1]);
    if n < |ch| {
      CutIsChain(f, ch, n - 1, end);
    } else {
      assert ch[..n] == ch;
    }
  }

  lemma PrefixSector(b: seq<Byte>, m: nat, k: nat)
    requires m <= |b| && 512 * k + 512 <= m
    ensures ImageSector(b[..m], k) == ImageSector(b, k)
  {
    var x := 512 * k;
    assert b[..m][x..x + 512] == b[x..x + 512];
  }

  lemma CutAll(f: Fat, ch: seq<nat>, end: nat)
    ensures Cut(f, ch, 0, end) == Freed(f, ch)
  {
  }

  /** Changing the link of an allocated cluster frees nothing. */
  lemma RelinkKeepsCount(free: Dword, f: Fat, c: nat, v: nat)
    requires InRange(f, c) && f[c] != 0 && v != 0
    ensures CountIsRight(free, f) ==> CountIsRight(free, f[c := v])
  {
    FreeFromUpdate(f, 2, c, v);
  }

  lemma SlicedTwice(b: seq<Byte>, m: nat, n: nat, p: nat)
    requires p <= m <= |b| && p <= n <= |b|
    ensures b[..m][..p] == b[..n][..p]
  {
  }

  /** A buffered sector that is not kept by a cut lies in a cluster that is free afterwards. */
  lemma StaleSector(g: Geometry, f: Fat, ch: seq<nat>, n: nat, end: nat, s: nat) returns (c: nat)
    requires 2 <= g.nFatent && 1 <= g.csize && n <= |ch| && IsChain(f, ch)
    requires s in FileSectors(g, ch) && s !in FileSectors(g, ch[..n])
    ensures n > 0 ==> ch[n - 1] < |f|
    ensures c in ch[n..] && s in ClusterSectors(g, c) && c < |f| && Cut(f, ch, n, end)[c] == 0
  {
    hide FileSectors, Clust2Sect;
    assert n > 0 ==> InRange(f, ch[n - 1]);
    var k: nat :| k < |FileSectors(g, ch)| && FileSectors(g, ch)[k] == s;
    var q, r := Locate(g, ch, k);
    if q < n {
      InFileSectors(g, ch[..n], q, r);
    }
    c := ch[q];
    assert ch[n..][q - n] == c && InRange(f, c);
    assert ClusterSectors(g, c)[r] == s;
    NotInKept(f, ch, n, end, q);
  }

  /** The sectors of a chain that is split in two. */
  lemma {:induction false} JoinedSectors(g: Geometry, a: seq<nat>, b: seq<nat>)
    requires 2 <= g.nFatent
    ensures FileSectors(g, a + b) == FileSectors(g, a) + FileSectors(g, b)
    decreases |a|
  {
    if a == [] {
      assert a + b == b;
    } else {
      assert (a + b)[0] == a[0] && (a + b)[1..] == a[1..] + b;
      JoinedSectors(g, a[1..], b);
    }
  }

  /** A sector of a chain is in exactly one of the two parts. */
  lemma SplitSectors(g: Geometry, ch: seq<nat>, n: nat)
    requires 2 <= g.nFatent && 1 <= g.csize && AllInRange(g, ch) && Distinct(ch) && n <= |ch|
    ensures forall s :: s in FileSectors(g, ch) ==> (s in FileSectors(g, ch[..n]) <==> s !in FileSectors(g, ch[n..]))
  {
    hide FileSectors, AllInRange;
    var a, b := FileSectors(g, ch[..n]), FileSectors(g, ch[n..]);
    assert ch == ch[..n] + ch[n..];
    JoinedSectors(g, ch[..n], ch[n..]);
    FileSectorsDistinct(g, ch);
    forall i, j | 0 <= i < |a| && 0 <= j < |b|
      ensures a[i] != b[j]
    {
      assert (a + b)[i] == a[i] && (a + b)[|a| + j] == b[j];
    }
  }

  lemma AmongChain(f: Fat, ch: seq<nat>, n: nat, c: nat)
    requires IsChain(f, ch) && n <= |ch| && c in ch[n..]
    ensures InRange(f, c)
  {
    assert c in ch;
  }

  lemma InFileSectors(g: Geometry, ch: seq<nat>, q: nat, r: nat)
    requires 2 <= g.nFatent && q < |ch| && r < g.csize
    ensures Clust2Sect(g, ch[q]) + r in FileSectors(g, ch)
  {
    hide FileSectors, Clust2Sect;
    FileSectorAt(g, ch, q, r);
    assert FileSectors(g, ch)[q * g.csize + r] == Clust2Sect(g, ch[q]) + r;
  }

  lemma NotInKept(f: Fat, ch: seq<nat>, n: nat, end: nat, q: nat)
    requires IsChain(f, ch) && n <= q < |ch|
    ensures n > 0 ==> ch[n - 1] < |f|
    ensures ch[q] < |f| && Cut(f, ch, n, end)[ch[q]] == 0
  {
    assert InRange(f, ch[q]);
    assert n > 0 ==> InRange(f, ch[n - 1]);
    assert ch[n..][q - n] == ch[q];
  }

  // ---------- the other files ----------

  /** An operation that grows the chain ch0 to ch out of free clusters, and writes only sectors of ch,
      leaves the chain and the content of every other file alone. */
  lemma OtherFileKept(g: Geometry, sectors: nat, s0: Space, ch0: seq<nat>, s: Space, ch: seq<nat>, d0: seq<Sector>, d: seq<Sector>, other: seq<nat>)
    requires DataFits(g, sectors) && 1 <= g.nFats <= 2 && 1 <= g.fatbase && |s0.fat| == g.nFatent && |d0| == sectors
    requires Grown(s0, ch0, s, ch) && OnlyChanged(d0, d, FileSectors(g, ch))
    requires IsChain(s0.fat, other) && Disjoint(ch0, other) && (ch == [] || IsChain(s.fat, ch))
    ensures IsChain(s.fat, other) && Disjoint(ch, other)
    ensures InDisk(d0, FileSectors(g, other)) && InDisk(d, FileSectors(g, other))
    ensures Gather(d, FileSectors(g, other)) == Gather(d0, FileSectors(g, other))
  {
    hide FileSectors, Clust2Sect, Gather;
    NotFree(s0.fat, other);
    DisjointFromGrown(s0, ch0, s, ch, other);
    var t := FileSectors(g, other);
    FileSectorsInside(g, sectors, other);
    InDiskIntro(d0, t);
    FileSectorsDisjoint(g, ch, other);
    forall i | 0 <= i < |t|
      ensures d[t[i]] == d0[t[i]]
    {
      assert t[i] in t;
    }
    GatherSame(d, d0, t);
  }

  lemma DisjointFromGrown(s0: Space, ch0: seq<nat>, s: Space, ch: seq<nat>, other: seq<nat>)
    requires Grown(s0, ch0, s, ch) && IsChain(s0.fat, other) && Disjoint(ch0, other)
    requires forall c :: c in other ==> c < |s0.fat| && s0.fat[c] != 0
    ensures IsChain(s.fat, other) && Disjoint(ch, other)
  {
    forall c | c in ch
      ensures c !in other
    {
    }
    forall i | 0 <= i < |other|
      ensures s.fat[other[i]] == s0.fat[other[i]]
    {
      assert other[i] in other;
    }
    ChainFrame(s0.fat, s.fat, other);
  }

  /** Cutting a chain leaves every other chain alone. */
  lemma OtherFileKeptByCut(f: Fat, ch: seq<nat>, n: nat, end: nat, other: seq<nat>)
    requires IsChain(f, ch) && n <= |ch| && IsChain(f, other) && Disjoint(ch, other)
    ensures n > 0 ==> ch[n - 1] < |f|
    ensures IsChain(Cut(f, ch, n, end), other)
  {
    assert n > 0 ==> InRange(f, ch[n - 1]);
    forall i | 0 <= i < |other|
      ensures Cut(f, ch, n, end)[other[i]] == f[other[i]]
    {
      NotInBoth(other, ch, i, 0);
      CutOutside(f, ch, n, end, other[i]);
    }
    ChainFrame(f, Cut(f, ch, n, end), other);
  }

  lemma CutOutside(f: Fat, ch: seq<nat>, n: nat, end: nat, c: nat)
    requires n <= |ch| && (n > 0 ==> ch[n - 1] < |f|) && c < |f| && c !in ch
    ensures Cut(f, ch, n, end)[c] == f[c]
  {
    assert n > 0 ==> ch[n - 1] in ch;
  }
}
