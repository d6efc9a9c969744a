/** Where the clusters of a chain lie on the disk, and a file's bytes as a sequence of sectors. */
module FatSectors {
  import opened Basics
  import opened FatCodec
  import opened FatChains

  /** The data area: cluster sector ranges inside the disk, past the FAT copies. */
  predicate DataFits(g: Geometry, sectors: nat) {
    && 1 <= g.csize
    && 2 <= g.nFatent
    && g.fatbase + (if g.nFats == 2 then 2 * g.fsize else g.fsize) <= g.database
    && g.database + g.csize * (g.nFatent - 2) <= sectors
  }

  /** clust2sect: 0 for an invalid cluster number, else the first sector of the cluster. */
  function Clust2Sect(g: Geometry, clst: nat): (s: nat)
    requires 2 <= g.nFatent
  {
    if clst < 2 || clst - 2 >= g.nFatent - 2 then 0 else (clst - 2) * g.csize + g.database
  }

  /** Cluster 2 is at the start of the data area, and each cluster follows the one before it. */
  lemma ClustersInOrder(g: Geometry, c: nat)
    requires 2 <= g.nFatent
    ensures 2 < g.nFatent ==> Clust2Sect(g, 2) == g.database
    ensures 2 <= c && c + 1 < g.nFatent ==> Clust2Sect(g, c + 1) == Clust2Sect(g, c) + g.csize
    ensures c < 2 || c >= g.nFatent ==> Clust2Sect(g, c) == 0
  {
    assert 2 <= c ==> (c + 1 - 2) * g.csize == (c - 2) * g.csize + g.csize;
  }

  lemma MulMonotone(a: nat, b: nat, c: nat)
    requires a <= b
    ensures c * a <= c * b && a * c <= b * c
  {
  }

  lemma MulLess(a: nat, b: nat, n: nat)
    ensures a * n < b * n ==> a < b
  {
    if b <= a {
      MulMonotone(b, a, n);
    }
  }

  /** Sector r of cluster c lies in the data area. */
  lemma ClusterInside(g: Geometry, sectors: nat, c: nat, r: nat)
    requires DataFits(g, sectors) && 2 <= c < g.nFatent && r < g.csize && 1 <= g.nFats <= 2 && 1 <= g.fatbase
    ensures g.database <= Clust2Sect(g, c) + r < sectors
    ensures 0 < Clust2Sect(g, c)
    ensures !InFat(g, Clust2Sect(g, c) + r) && !InMirror(g, Clust2Sect(g, c) + r)
    ensures Clust2Sect(g, c) + g.csize <= sectors
  {
    MulMonotone(c - 1, g.nFatent - 2, g.csize);
    assert (c - 1) * g.csize == (c - 2) * g.csize + g.csize;
    assert (c - 2) * g.csize >= 0;
  }

  /** Quotient and remainder are unique. */
  lemma QuotientUnique(q1: nat, r1: nat, q2: nat, r2: nat, n: nat)
    requires r1 < n && r2 < n && q1 * n + r1 == q2 * n + r2
    ensures q1 == q2 && r1 == r2
  {
    assert (q1 + 1) * n == q1 * n + n && (q2 + 1) * n == q2 * n + n;
    if q1 < q2 {
      MulMonotone(q1 + 1, q2, n);
    } else if q2 < q1 {
      MulMonotone(q2 + 1, q1, n);
    }
  }

  lemma DivideExact(x: nat, n: nat)
    requires n > 0
    ensures x == (x / n) * n + x % n && x % n < n
  {
  }

  lemma QuotientIs(x: nat, n: nat, q: nat, r: nat)
    requires r < n && x == q * n + r
    ensures x / n == q && x % n == r
  {
    DivideExact(x, n);
    QuotientUnique(x / n, x % n, q, r, n);
  }

  /** Where sector k of a file lies, when the sector before it is in cluster i of the chain. */
  lemma OffsetInCluster(k: nat, i: nat, n: nat)
    requires n >= 1 && i * n < k <= i * n + n
    ensures k % n == 0 <==> k == i * n + n
    ensures k % n != 0 ==> k % n == k - i * n
    ensures (i + 1) * n == i * n + n
  {
    assert (i + 1) * n == i * n + n;
    if k == i * n + n {
      QuotientIs(k, n, i + 1, 0);
    } else {
      QuotientIs(k, n, i, k - i * n);
    }
  }

  /** The sector ranges of two clusters are disjoint. */
  lemma ClustersDisjoint(g: Geometry, c1: nat, r1: nat, c2: nat, r2: nat)
    requires 2 <= c1 < g.nFatent && 2 <= c2 < g.nFatent && r1 < g.csize && r2 < g.csize
    requires Clust2Sect(g, c1) + r1 == Clust2Sect(g, c2) + r2
    ensures c1 == c2 && r1 == r2
  {
    QuotientUnique(c1 - 2, r1, c2 - 2, r2, g.csize);
  }

  function ClusterSector(g: Geometry, c: nat, r: nat): nat
    requires 2 <= g.nFatent
  {
    Clust2Sect(g, c) + r
  }

  /** The sectors of one cluster, in order. */
  function ClusterSectors(g: Geometry, c: nat): (r: seq<nat>)
    requires 2 <= g.nFatent
    ensures |r| == g.csize
  {
    seq(g.csize, i requires 0 <= i < g.csize => ClusterSector(g, c, i))
  }

  /** The sectors of a chain, in order. */
  function FileSectors(g: Geometry, ch: seq<nat>): (r: seq<nat>)
    requires 2 <= g.nFatent
  {
    if ch == [] then [] else ClusterSectors(g, ch[0]) + FileSectors(g, ch[1..])
  }

  lemma {:induction false} FileSectorsLength(g: Geometry, ch: seq<nat>)
    requires 2 <= g.nFatent
    ensures |FileSectors(g, ch)| == |ch| * g.csize
  {
    if ch != [] {
      FileSectorsLength(g, ch[1..]);
      assert |ch| * g.csize == (|ch| - 1) * g.csize + g.csize;
    }
  }

  /** Sector k of a chain is sector k % csize of cluster k / csize. */
  lemma {:induction false} FileSectorAt(g: Geometry, ch: seq<nat>, q: nat, r: nat)
    requires 2 <= g.nFatent && q < |ch| && r < g.csize
    ensures q * g.csize + r < |FileSectors(g, ch)| == |ch| * g.csize
    ensures FileSectors(g, ch)[q * g.csize + r] == Clust2Sect(g, ch[q]) + r
  {
    FileSectorsLength(g, ch);
    FileSectorsLength(g, ch[1..]);
    MulMonotone(q + 1, |ch|, g.csize);
    assert (q + 1) * g.csize == q * g.csize + g.csize;
    if q > 0 {
      FileSectorAt(g, ch[1..], q - 1, r);
      assert (q - 1) * g.csize + r == q * g.csize + r - g.csize;
      assert ch[1..][q - 1] == ch[q];
    }
  }

  /** The cluster and the place in it that sector k of a chain has. */
  lemma Locate(g: Geometry, ch: seq<nat>, k: nat) returns (q: nat, r: nat)
    requires 2 <= g.nFatent && 1 <= g.csize && k < |FileSectors(g, ch)|
    ensures q < |ch| && r < g.csize && k == q * g.csize + r
    ensures FileSectors(g, ch)[k] == Clust2Sect(g, ch[q]) + r
  {
    FileSectorsLength(g, ch);
    DivideExact(k, g.csize);
    q, r := k / g.csize, k % g.csize;
    if q >= |ch| {
      MulMonotone(|ch|, q, g.csize);
    }
    FileSectorAt(g, ch, q, r);
  }

  lemma {:induction false} FileSectorsAppend(g: Geometry, ch: seq<nat>, c: nat)
    requires 2 <= g.nFatent
    ensures FileSectors(g, ch + [c]) == FileSectors(g, ch) + ClusterSectors(g, c)
  {
    if ch == [] {
      assert [c][1..] == [] && FileSectors(g, []) == [];
      assert ch + [c] == [c];
      assert FileSectors(g, [c]) == ClusterSectors(g, c) + [];
    } else {
      FileSectorsAppend(g, ch[1..], c);
      assert (ch + [c])[1..] == ch[1..] + [c];
      assert (ch + [c])[0] == ch[0];
      assert ClusterSectors(g, ch[0]) + (FileSectors(g, ch[1..]) + ClusterSectors(g, c))
          == (ClusterSectors(g, ch[0]) + FileSectors(g, ch[1..])) + ClusterSectors(g, c);
    }
  }

  ghost predicate AllInRange(g: Geometry, ch: seq<nat>) {
    forall i :: 0 <= i < |ch| ==> 2 <= ch[i] < g.nFatent
  }

  /** Equal sectors of two chains belong to equal clusters, at the same place. */
  lemma SameSector(g: Geometry, a: seq<nat>, i: nat, b: seq<nat>, j: nat) returns (q: nat, p: nat, r: nat)
    requires 2 <= g.nFatent && 1 <= g.csize && AllInRange(g, a) && AllInRange(g, b)
    requires i < |FileSectors(g, a)| && j < |FileSectors(g, b)|
    requires FileSectors(g, a)[i] == FileSectors(g, b)[j]
    ensures q < |a| && p < |b| && a[q] == b[p] && i == q * g.csize + r && j == p * g.csize + r
  {
    hide FileSectors, Clust2Sect;
    q, r := Locate(g, a, i);
    var r2: nat;
    p, r2 := Locate(g, b, j);
    ClustersDisjoint(g, a[q], r, b[p], r2);
  }

  /** A chain without repeated clusters has no repeated sectors. */
  lemma FileSectorsDistinct(g: Geometry, ch: seq<nat>)
    requires 2 <= g.nFatent && 1 <= g.csize && AllInRange(g, ch) && Distinct(ch)
    ensures Distinct(FileSectors(g, ch))
  {
    hide FileSectors, Clust2Sect, AllInRange;
    var s := FileSectors(g, ch);
    forall i, j | 0 <= i < j < |s|
      ensures s[i] != s[j]
    {
      if s[i] == s[j] {
        var q, p, r := SameSector(g, ch, i, ch, j);
      }
    }
  }

  lemma SectorInside(g: Geometry, sectors: nat, ch: seq<nat>, k: nat)
    requires DataFits(g, sectors) && 1 <= g.nFats <= 2 && 1 <= g.fatbase && AllInRange(g, ch)
    requires k < |FileSectors(g, ch)|
    ensures var s := FileSectors(g, ch)[k]; g.database <= s < sectors && !InFat(g, s) && !InMirror(g, s)
  {
    hide FileSectors, Clust2Sect;
    var q, r := Locate(g, ch, k);
    ClusterInside(g, sectors, ch[q], r);
  }

  /** Every sector of a chain lies in the data area. */
  lemma FileSectorsInside(g: Geometry, sectors: nat, ch: seq<nat>)
    requires DataFits(g, sectors) && 1 <= g.nFats <= 2 && 1 <= g.fatbase && AllInRange(g, ch)
    ensures forall s :: s in FileSectors(g, ch) ==> g.database <= s < sectors && !InFat(g, s) && !InMirror(g, s)
  {
    hide FileSectors, AllInRange;
    forall s | s in FileSectors(g, ch)
      ensures g.database <= s < sectors && !InFat(g, s) && !InMirror(g, s)
    {
      var k: nat :| k < |FileSectors(g, ch)| && FileSectors(g, ch)[k] == s;
      SectorInside(g, sectors, ch, k);
    }
  }

  /** Two disjoint chains have disjoint sectors. */
  lemma FileSectorsDisjoint(g: Geometry, a: seq<nat>, b: seq<nat>)
    requires 2 <= g.nFatent && 1 <= g.csize && AllInRange(g, a) && AllInRange(g, b) && Disjoint(a, b)
    ensures Disjoint(FileSectors(g, a), FileSectors(g, b))
  {
    hide FileSectors, AllInRange, Disjoint;
    forall s | s in FileSectors(g, a)
      ensures s !in FileSectors(g, b)
    {
      var i: nat :| i < |FileSectors(g, a)| && FileSectors(g, a)[i] == s;
      forall j: nat | j < |FileSectors(g, b)|
        ensures FileSectors(g, b)[j] != s
      {
        if FileSectors(g, b)[j] == s {
          var q, p, _ := SameSector(g, a, i, b, j);
          NotInBoth(a, b, q, p);
        }
      }
    }
    DisjointIntro(FileSectors(g, a), FileSectors(g, b));
  }

  lemma NotInBoth(a: seq<nat>, b: seq<nat>, i: nat, j: nat)
    requires Disjoint(a, b) && i < |a| && j < |b|
    ensures a[i] != b[j]
  {
    assert a[i] in a;
  }

  lemma DisjointIntro(a: seq<nat>, b: seq<nat>)
    requires forall s :: s in a ==> s !in b
    ensures Disjoint(a, b)
  {
  }

  // ---------- bytes ----------

  /** The sectors d with a run of them replaced. */
  function SetRun(d: seq<Sector>, sector: nat, content: seq<Byte>, count: nat): (r: seq<Sector>)
    requires |content| == 512 * count
    ensures |r| == |d|
  {
    seq(|d|, s requires 0 <= s < |d| => AfterRun(d, sector, content, count, s))
  }

  function AfterRun(d: seq<Sector>, sector: nat, content: seq<Byte>, count: nat, s: nat): Sector
    requires |content| == 512 * count && s < |d|
  {
    if sector <= s < sector + count then ImageSector(content, s - sector) else d[s]
  }

  ghost predicate InDisk(d: seq<Sector>, s: seq<nat>) {
    forall i :: 0 <= i < |s| ==> s[i] < |d|
  }

  /** The bytes of a list of sectors. */
  function Gather(d: seq<Sector>, s: seq<nat>): (b: seq<Byte>)
    requires forall i :: 0 <= i < |s| ==> s[i] < |d|
    ensures |b| == 512 * |s|
  {
    seq(512 * |s|, i requires 0 <= i < 512 * |s| => d[s[i / 512]][i % 512])
  }

  lemma GatherAt(d: seq<Sector>, s: seq<nat>, j: nat)
    requires InDisk(d, s) && j < |s|
    ensures ImageSector(Gather(d, s), j) == d[s[j]]
  {
    var got, want := ImageSector(Gather(d, s), j), d[s[j]];
    forall o | 0 <= o < 512
      ensures got[o] == want[o]
    {
      assert (512 * j + o) / 512 == j && (512 * j + o) % 512 == o;
    }
  }

  lemma GatherSame(d: seq<Sector>, e: seq<Sector>, s: seq<nat>)
    requires InDisk(d, s) && InDisk(e, s)
    requires forall i :: 0 <= i < |s| ==> d[s[i]] == e[s[i]]
    ensures Gather(d, s) == Gather(e, s)
  {
    var b1, b2 := Gather(d, s), Gather(e, s);
    forall i | 0 <= i < |b1|
      ensures b1[i] == b2[i]
    {
      assert d[s[i / 512]] == e[s[i / 512]];
    }
  }

  /** The sector numbers of a run. */
  function Run(sector: nat, count: nat): (r: seq<nat>)
    ensures |r| == count
    ensures forall i :: 0 <= i < count ==> r[i] == sector + i
  {
    seq(count, i requires 0 <= i < count => sector + i)
  }

  /** b with the bytes from p on replaced by d. */
  function Splice<T>(b: seq<T>, p: nat, d: seq<T>): (r: seq<T>)
    requires p + |d| <= |b|
    ensures |r| == |b|
  {
    b[..p] + d + b[p + |d|..]
  }

  lemma SpliceAt<T>(b: seq<T>, p: nat, d: seq<T>, k: nat)
    requires p + |d| <= |b| && k < |b|
    ensures Splice(b, p, d)[k] == if p <= k < p + |d| then d[k - p] else b[k]
  {
  }

  /** Replacing bytes inside one sector changes that sector only. */
  lemma SpliceOneSector(b: seq<Byte>, k: nat, o: nat, d: seq<Byte>, j: nat)
    requires 512 * k + 512 <= |b| && o + |d| <= 512 && 512 * j + 512 <= |b|
    ensures ImageSector(Splice(b, 512 * k + o, d), j) ==
            if j == k then Splice(ImageSector(b, k), o, d) else ImageSector(b, j)
  {
  }

  /** Replacing whole sectors. */
  lemma SpliceSectors(b: seq<Byte>, k: nat, d: seq<Byte>, n: nat, j: nat)
    requires 512 * (k + n) <= |b| && |d| == 512 * n && 512 * j + 512 <= |b|
    ensures ImageSector(Splice(b, 512 * k, d), j) ==
            if k <= j < k + n then ImageSector(d, j - k) else ImageSector(b, j)
  {
  }
}
