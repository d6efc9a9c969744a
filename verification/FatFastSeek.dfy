/** Fast seek of FatFs: building the link map of a file, and seeking by it. */
module FatFastSeek {
  import opened Basics
  import opened FatCodec
  import opened FatVolume
  import opened FatChains
  import opened FatSectors
  import opened FatFile
  import opened FatFileTheory
  import opened FatLinkMap

  /** The end mark of the chain does not look like the cluster after the last one. */
  ghost predicate EndsClear(f: Fat, ch: seq<nat>) {
    ch != [] ==> ch[|ch| - 1] < |f| && f[ch[|ch| - 1]] != ch[|ch| - 1] + 1
  }

  /** f_lseek with CREATE_LINKMAP: the table, whose first item is its size, receives the fragments of the
      file's chain when they fit. Nothing is written past that size, but for the terminator when not even that fits. */
  method CreateLinkMap(fp: FileObject, tbl: array<nat>) returns (res: FResult)
    requires fp.Coherent() && 2 <= tbl.Length && tbl[0] <= tbl.Length
    requires tbl as object != fp.buf && tbl as object != fp.fs.win
    modifies tbl, fp`error, fp.fs`disk, fp.fs`faults, fp.fs`winsect, fp.fs`wflag, fp.fs`errors, fp.fs`mirrorLost, fp.fs.win
    ensures fp.fs.Valid() && tbl[0] == old(tbl[0])
    ensures forall i :: old(tbl[0]) <= i < tbl.Length && i >= 2 ==> tbl[i] == old(tbl[i])
    ensures res == Ok ==> fp.Coherent() && MapOf(tbl[..], fp.chain) && EndsClear(fp.fs.fat, fp.chain)
    ensures res == NotEnoughCore ==> fp.Coherent() && 2 * |Fragments(fp.chain)| + 2 > tbl[0]
    ensures res == IntErr ==> !EndsClear(fp.fs.fat, fp.chain)
    ensures res == Ok || res == NotEnoughCore || res == IntErr || res == DiskErr
    ensures if res == IntErr || res == DiskErr then fp.error else fp.error == old(fp.error)
    ensures fp.fs.Tried() && (res == DiskErr ==> fp.fs.errors > old(fp.fs.errors))
  {
    hide MapOf, Fragments, Encode, IsChain, EndsClear, RunLength, FileSectors, FileObject.Layout, FileObject.Buffered, FileObject.StoredHere,
      FileObject.StoredElsewhere, Volume.Shape, Volume.Decoded, Volume.WindowCoherent, Volume.DiskCoherent, Volume.MirrorCoherent, DataFits;
    fp.fs.Bounds();
    EmptyOrNot(fp);
    res := Ok;
    var tlen, p, cl := tbl[0], 1, fp.orgClust;
    ghost var k: nat, done: seq<Fragment> := 0, [];
    StartMap(tbl[..], fp.fs.fat, fp.chain);
    if cl != 0 {
      while true
        invariant fp.Coherent() && res == Ok && fp.error == old(fp.error) && fp.fs.Tried() && k < |fp.chain| && cl == fp.chain[k]
        invariant p == 1 + 2 * |done| && tlen + 2 * |done| == tbl[0] == old(tbl[0]) && (p == 1 || p < tbl[0]) && 0 <= tlen
        invariant Fragments(fp.chain) == done + Fragments(fp.chain[k..]) && tbl[1..p] == Encode(done)
        invariant forall i :: old(tbl[0]) <= i < tbl.Length ==> tbl[i] == old(tbl[i])
        decreases |fp.chain| - k
      {
        MoreFragments(fp.chain, k, done);
        if tlen < 4 {
          res := NotEnoughCore;
          break;
        }
        ghost var tcl := cl;
        var ncl;
        res, cl, ncl := AddFragment(fp, tbl, p, cl, k, done);
        if res != Ok { return; }
        p := p + 2;
        tlen := tlen - 2;
        done := done + [Fragment(ncl, tcl)];
        k := k + ncl;
        if cl >= fp.fs.g.nFatent { break; }
      }
    }
    tbl[p] := 0;
    if res == Ok {
      MapDone(tbl[..], fp.chain, k, done);
    }
  }

  /** One round of the outer loop: finds the fragment that begins with a cluster, and stores it. */
  method AddFragment(fp: FileObject, tbl: array<nat>, p: nat, start: nat, ghost k: nat, ghost done: seq<Fragment>) returns (res: FResult, cl: nat, ncl: nat)
    requires fp.Coherent() && k < |fp.chain| && start == fp.chain[k] && p == 1 + 2 * |done| && p + 2 <= tbl.Length
    requires Fragments(fp.chain) == done + Fragments(fp.chain[k..]) && tbl[1..p] == Encode(done)
    requires tbl as object != fp.buf && tbl as object != fp.fs.win
    modifies tbl, fp`error, fp.fs`disk, fp.fs`faults, fp.fs`winsect, fp.fs`wflag, fp.fs`errors, fp.fs`mirrorLost, fp.fs.win
    ensures fp.fs.Valid() && forall i :: 0 <= i < tbl.Length && !(p <= i < p + 2) ==> tbl[i] == old(tbl[i])
    ensures res == Ok ==> fp.Coherent() && k + ncl <= |fp.chain| && ncl > 0 && tbl[1..p + 2] == Encode(done + [Fragment(ncl, start)])
    ensures res == Ok ==> Fragments(fp.chain) == done + [Fragment(ncl, start)] + Fragments(fp.chain[k + ncl..])
    ensures res == Ok && k + ncl < |fp.chain| ==> cl == fp.chain[k + ncl] < fp.fs.g.nFatent
    ensures res == Ok && k + ncl == |fp.chain| ==> cl >= fp.fs.g.nFatent && EndsClear(fp.fs.fat, fp.chain)
    ensures res == IntErr ==> !EndsClear(fp.fs.fat, fp.chain)
    ensures res == Ok || res == IntErr || res == DiskErr
    ensures if res == IntErr || res == DiskErr then fp.error else fp.error == old(fp.error)
    ensures fp.fs.Tried() && (res == DiskErr ==> fp.fs.errors > old(fp.fs.errors))
  {
    hide Fragments, Encode, IsChain, EndsClear, RunLength, FileSectors, FileObject.Layout, FileObject.Buffered, FileObject.StoredHere,
      FileObject.StoredElsewhere, Volume.Shape, Volume.Decoded, Volume.WindowCoherent, Volume.DiskCoherent, Volume.MirrorCoherent, DataFits;
    res, cl, ncl := WalkFragment(fp, start, k);
    if res != Ok {
      fp.error := true;
      return;
    }
    assert tbl[1..p] == Encode(done);
    OneMoreFragment(fp.chain, k, done, ncl);
    tbl[p], tbl[p + 1] := ncl, start;
    AppendedSlice(tbl[..], p, done, Fragment(ncl, start));
  }

  /** The inner loop: the clusters from cluster k of the chain on that follow each other. */
  method WalkFragment(fp: FileObject, start: nat, ghost k: nat) returns (res: FResult, cl: nat, ncl: nat)
    requires fp.Coherent() && k < |fp.chain| && start == fp.chain[k]
    modifies fp.fs`disk, fp.fs`faults, fp.fs`winsect, fp.fs`wflag, fp.fs`errors, fp.fs`mirrorLost, fp.fs.win
    ensures fp.Coherent()
    ensures res == Ok ==> k + ncl <= |fp.chain| && ncl == RunLength(fp.chain[k..])
    ensures res == Ok && k + ncl < |fp.chain| ==> cl == fp.chain[k + ncl] < fp.fs.g.nFatent
    ensures res == Ok && k + ncl == |fp.chain| ==> cl >= fp.fs.g.nFatent && EndsClear(fp.fs.fat, fp.chain)
    ensures res == IntErr ==> !EndsClear(fp.fs.fat, fp.chain)
    ensures res == Ok || res == IntErr || res == DiskErr
    ensures fp.fs.Tried() && (res == DiskErr ==> fp.fs.errors > old(fp.fs.errors))
  {
    hide IsChain, EndsClear, RunLength, FileSectors, FileObject.Buffered, FileObject.StoredHere, FileObject.StoredElsewhere,
      Volume.Shape, Volume.Decoded, Volume.WindowCoherent, Volume.DiskCoherent, Volume.MirrorCoherent, DataFits;
    fp.fs.Bounds();
    cl, ncl := start, 0;
    ghost var ch, f, past := fp.chain, fp.fs.fat, false;
    ghost var r := ch[k..];
    while true
      invariant fp.Coherent() && fp.fs.Tried() && ncl <= |r| && (ncl < |r| ==> !past)
      invariant !past ==> ncl < |r| && cl == r[ncl]
      invariant past ==> cl >= |f| && !EndsClear(f, ch)
      invariant forall i :: 0 <= i < ncl ==> r[i] == r[0] + i
      invariant !past ==> r[ncl] == r[0] + ncl
      decreases |r| - ncl, if past then 0 else 1
    {
      if !past {
        ChainLink(f, ch, k, ncl);
      }
      var pcl := cl;
      ghost var n := ncl;
      ncl := ncl + 1;
      cl := fp.fs.GetFat(cl);
      fp.WindowElsewhere();
      if cl <= 1 { return IntErr, cl, ncl; }
      if cl == DISK_ERROR { return DiskErr, cl, ncl; }
      if cl != pcl + 1 {
        RunLengthIs(r, ncl);
        break;
      }
      past := ncl == |r|;
    }
    res := Ok;
  }

  /** The link of cluster n of the rest of a chain. */
  lemma ChainLink(f: Fat, ch: seq<nat>, k: nat, n: nat)
    requires IsChain(f, ch) && k + n < |ch|
    ensures n < |ch[k..]| && InRange(f, ch[k..][n])
    ensures n + 1 < |ch[k..]| ==> f[ch[k..][n]] == ch[k..][n + 1] && InRange(f, ch[k..][n + 1])
    ensures n + 1 == |ch[k..]| ==> f[ch[k..][n]] >= |f| && (EndsClear(f, ch) <==> f[ch[k..][n]] != ch[k..][n] + 1)
  {
    LastInChain(f, ch, k + n);
  }

  lemma StartMap(t: seq<nat>, f: Fat, ch: seq<nat>)
    requires |t| >= 2
    ensures t[1..1] == Encode([]) && ch[0..] == ch && Fragments(ch) == [] + Fragments(ch[0..])
    ensures ch == [] ==> Fragments(ch) == [] && EndsClear(f, ch)
  {
    assert ch[0..] == ch;
  }

  /** As long as clusters are left there is another fragment. */
  lemma MoreFragments(ch: seq<nat>, k: nat, done: seq<Fragment>)
    requires k < |ch| && Fragments(ch) == done + Fragments(ch[k..])
    ensures |Fragments(ch)| > |done|
  {
  }

  lemma OneMoreFragment(ch: seq<nat>, k: nat, done: seq<Fragment>, n: nat)
    requires k < |ch| && Fragments(ch) == done + Fragments(ch[k..]) && n == RunLength(ch[k..])
    ensures Fragments(ch) == done + [Fragment(n, ch[k])] + Fragments(ch[k + n..])
  {
    hide RunLength;
    var r, x := ch[k..], Fragment(n, ch[k]);
    assert Fragments(r) == [x] + Fragments(r[n..]);
    assert r[n..] == ch[k + n..];
    Associative(done, [x], Fragments(r[n..]));
  }

  lemma Associative(a: seq<Fragment>, b: seq<Fragment>, c: seq<Fragment>)
    ensures a + (b + c) == a + b + c
  {
  }

  /** Two items stored behind the encoding of some fragments. */
  lemma AppendedSlice(t: seq<nat>, p: nat, done: seq<Fragment>, f: Fragment)
    requires 1 <= p && p + 2 <= |t| && t[1..p] == Encode(done) && t[p] == f.len && t[p + 1] == f.top
    ensures t[1..p + 2] == Encode(done + [f])
  {
    EncodeAppend(done, f);
    assert t[1..p + 2] == t[1..p] + [t[p], t[p + 1]];
  }

  lemma MapDone(t: seq<nat>, ch: seq<nat>, k: nat, done: seq<Fragment>)
    requires k == |ch| && Fragments(ch) == done + Fragments(ch[k..])
    requires 2 * |done| + 2 <= |t| && t[1..2 * |done| + 1] == Encode(done) && t[2 * |done| + 1] == 0
    ensures MapOf(t, ch)
  {
    assert ch[k..] == [];
    assert Fragments(ch) == done;
  }

  lemma EmptyOrNot(fp: FileObject)
    requires fp.Coherent()
    ensures if fp.chain == [] then fp.orgClust == 0 else fp.orgClust == fp.chain[0] && fp.orgClust != 0
  {
    hide IsChain, FileSectors, Volume.Shape, Volume.Decoded, Volume.WindowCoherent, Volume.DiskCoherent, Volume.MirrorCoherent;
    fp.fs.Bounds();
    fp.NotEmptyChain();
  }

  /** f_lseek with a link map: moves to ofs, cut to the file size, by looking the cluster up. The file object
      is then where following the chain would have left it. */
  method FastSeek(fp: FileObject, tbl: array<nat>, ofs0: Dword) returns (res: FResult)
    requires fp.fs.Valid() && (!fp.error ==> fp.Valid()) && MapOf(tbl[..], fp.chain)
    requires tbl as object != fp.buf && tbl as object != fp.fs.win
    modifies fp`fptr, fp`currClust, fp`ci, fp`dirty, fp`dsect, fp`error, fp.buf
    modifies fp.fs`disk, fp.fs`faults, fp.fs`errors, fp.fs`data
    ensures fp.fs.Valid()
    ensures old(fp.error) ==> res == IntErr
    ensures res != Ok ==> fp.error && (!old(fp.error) ==> res == DiskErr && fp.fs.errors > old(fp.fs.errors))
    ensures res == Ok ==> fp.Sought(old(fp.chain), old(fp.bytes), old(fp.fsize), if ofs0 > old(fp.fsize) then old(fp.fsize) else ofs0)
    ensures res == Ok && old(fp.Home()) ==> fp.Home() && OnlyChanged(old(fp.fs.data), fp.fs.data, fp.Sects())
  {
    hide MapOf, FileSectors, IsChain, OnlyChanged, SectorIndex, OnBoundary, Clust2Sect, FileObject.Layout, FileObject.Buffered, FileObject.StoredHere,
      FileObject.StoredElsewhere, Volume.Shape, Volume.Decoded, Volume.WindowCoherent, Volume.DiskCoherent, Volume.MirrorCoherent, DataFits;
    if fp.error { return IntErr; }
    var ofs := ofs0;
    if ofs > fp.fsize { ofs := fp.fsize; }
    OnlyChangedReflexive(fp.fs.data, fp.Sects());
    SectorZero();
    res := Ok;
    if ofs > 0 {
      SomeSectors(fp);
      fp.fptr := ofs;
      var dsc := SectorIndex(ofs - 1);
      FastPlace(fp, ofs, dsc / fp.fs.g.csize, dsc % fp.fs.g.csize);
      var found, clst := LookUp(tbl, dsc / fp.fs.g.csize, fp.chain);
      if !found {
        assert false;   // FR_INT_ERR cannot happen here
      }
      fp.currClust := clst;
      fp.ci := dsc / fp.fs.g.csize;
      var csc := dsc % fp.fs.g.csize;
      dsc := Clust2Sect(fp.fs.g, fp.currClust);
      if dsc == 0 {
        assert false;   // FR_INT_ERR cannot happen here
      }
      dsc := dsc + csc;
      res := fp.SeekBuffer(dsc);
    } else {
      fp.fptr := 0;
    }
  }

  lemma FirstSector(fp: FileObject, q: nat)
    requires fp.Coherent() && q < |fp.chain| && 2 <= fp.chain[q] < fp.fs.g.nFatent
    ensures 0 < Clust2Sect(fp.fs.g, fp.chain[q])
  {
    hide FileSectors, IsChain, Clust2Sect, FileObject.Buffered, FileObject.StoredHere, FileObject.StoredElsewhere,
      Volume.Decoded, Volume.WindowCoherent, Volume.DiskCoherent, Volume.MirrorCoherent;
    ClusterInside(fp.fs.g, fp.fs.sectors, fp.chain[q], 0);
  }

  /** Where byte ofs - 1 of a file lies. */
  lemma FastPlace(fp: FileObject, ofs: nat, q: nat, r: nat)
    requires fp.Coherent() && 0 < ofs <= |fp.bytes| && fp.fs.g.csize >= 1
    requires q == SectorIndex(ofs - 1) / fp.fs.g.csize && r == SectorIndex(ofs - 1) % fp.fs.g.csize
    ensures q < |fp.chain| && q * fp.fs.g.csize <= SectorIndex(ofs - 1) < q * fp.fs.g.csize + fp.fs.g.csize
    ensures 0 < Clust2Sect(fp.fs.g, fp.chain[q])
    ensures SectorIndex(ofs - 1) < |fp.Sects()| && Clust2Sect(fp.fs.g, fp.chain[q]) + r == fp.Sects()[SectorIndex(ofs - 1)]
    ensures !OnBoundary(ofs) ==> SectorIndex(ofs) == SectorIndex(ofs - 1)
  {
    hide FileSectors, IsChain, Clust2Sect, SectorIndex, OnBoundary, FileObject.Buffered, FileObject.StoredHere, FileObject.StoredElsewhere,
      Volume.Shape, Volume.Decoded, Volume.WindowCoherent, Volume.DiskCoherent, Volume.MirrorCoherent, DataFits;
    SectorBelow(ofs - 1, |fp.Sects()|);
    FileSectorsLength(fp.fs.g, fp.chain);
    DivideExact(SectorIndex(ofs - 1), fp.fs.g.csize);
    MulLess(q, |fp.chain|, fp.fs.g.csize);
    fp.LinkInside(q);
    FirstSector(fp, q);
    FileSectorAt(fp.fs.g, fp.chain, q, r);
    SectorBefore(ofs);
  }

  lemma SomeSectors(fp: FileObject)
    requires fp.Coherent()
    ensures fp.fs.g.csize >= 1
  {
    hide FileSectors, FileObject.Buffered, FileObject.StoredHere, FileObject.StoredElsewhere,
      Volume.Shape, Volume.Decoded, Volume.WindowCoherent, Volume.DiskCoherent, Volume.MirrorCoherent;
  }

  lemma SectorBelow(x: nat, n: nat)
    requires x < 512 * n
    ensures SectorIndex(x) < n
  {
  }

  /** Fast seek is slow seek: for one file and one offset inside it the two leave the same file pointer, current
      cluster and contents and, inside a sector, the same sector in the buffer. */
  lemma FastIsSlow(fast: FileObject, slow: FileObject, ch: seq<nat>, b: seq<Byte>, size: nat, ofs: nat)
    requires fast.fs == slow.fs && fast.Sought(ch, b, size, ofs) && slow.Sought(ch, b, size, ofs)
    ensures fast.fptr == slow.fptr && fast.Contents() == slow.Contents()
    ensures ofs > 0 ==> fast.currClust == slow.currClust
    ensures !OnBoundary(ofs) ==> fast.dsect == slow.dsect && fast.buf[..] == slow.buf[..]
  {
    hide FileSectors, SectorIndex, OnBoundary, FileObject.StoredHere, FileObject.StoredElsewhere, Volume.Shape, Volume.Decoded, Volume.WindowCoherent, Volume.DiskCoherent, Volume.MirrorCoherent, DataFits, IsChain;
    SomeSectors(fast);
    if ofs > 0 {
      var j, n := SectorIndex(ofs - 1), fast.fs.g.csize;
      QuotientUnique(fast.ci, j - fast.ci * n, slow.ci, j - slow.ci * n, n);
    }
  }
}
