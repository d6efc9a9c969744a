/** Several open files of one volume: an operation on one of them leaves the others open with what they contain,
    bytes that only their sector buffers hold included. And what a truncation can do to a pending write. */
module FatFiles {
  import opened Basics
  import opened FatCodec
  import opened FatVolume
  import opened FatChains
  import opened FatSectors
  import opened FatAllocator
  import opened FatFile
  import opened FatFileTheory

  /** What an open file relies on: the links of its chain in the table f, what it has stored in the sectors d, and
      that the window, on sector w, is elsewhere. */
  ghost predicate Rests(q: FileObject, f: Fat, d: seq<Sector>, w: nat)
    reads q, q.buf
  {
    && 2 <= q.fs.g.nFatent && q.buf.Length == 512 && q.buf != q.fs.win
    && (if q.chain == [] then q.orgClust == 0 else IsChain(f, q.chain) && q.orgClust == q.chain[0])
    && |q.bytes| == 512 * |q.Sects()| && q.Buffered() && Stored(q.Sects(), q.bytes, q.dsect, d)
    && w !in q.Sects() && (q.dsect != 0 ==> DataSector(q.fs.g, q.dsect) && q.dsect < q.fs.sectors && q.dsect != w)
    && (q.dirty ==> q.dsect != 0) && (q.dsect != 0 && !q.dirty ==> q.dsect < |d| && d[q.dsect] == q.buf[..])
  }

  /** The sectors s other than the buffered one hold the bytes b. */
  ghost predicate Stored(s: seq<nat>, b: seq<Byte>, dsect: nat, d: seq<Sector>)
    requires |b| == 512 * |s|
  {
    forall k: nat :: k < |s| && s[k] != dsect ==> s[k] < |d| && d[s[k]] == ImageSector(b, k)
  }

  lemma RestsNow(q: FileObject)
    requires q.fs.Valid()
    ensures q.Coherent() <==> Rests(q, q.fs.fat, q.fs.data, q.fs.winsect)
  {
    hide FileSectors, ImageSector, IsChain, Volume.Shape, Volume.Decoded, Volume.WindowCoherent, Volume.DiskCoherent, Volume.MirrorCoherent, DataFits;
  }

  /** It can still rely on that when its chain is a chain as before, and neither its sectors nor the buffered one
      are among those that have changed. */
  lemma RestsStill(q: FileObject, f0: Fat, d0: seq<Sector>, w0: nat, f: Fat, d: seq<Sector>, w: nat, s: seq<nat>)
    requires Rests(q, f0, d0, w0) && (q.chain != [] ==> IsChain(f, q.chain))
    requires OnlyChanged(d0, d, s) && Disjoint(s, q.Sects()) && q.dsect !in s
    requires w == w0 || (InFat(q.fs.g, w) && forall x :: x in q.Sects() ==> DataSector(q.fs.g, x))
    ensures Rests(q, f, d, w)
  {
    hide FileSectors, ImageSector, IsChain, FileObject.Buffered;
  }

  /** q is open beside p: another object with another buffer, which shows no sector or one of its own, on a chain
      disjoint from that of p, which has no write to a foreign sector pending. */
  ghost predicate Beside(p: FileObject, q: FileObject)
    reads p, q, p.fs, p.fs.win, p.buf, q.fs, q.fs.win, q.buf
  {
    && p.fs == q.fs && p != q && p.buf != q.buf && p.Valid() && q.Valid() && p.Home()
    && Disjoint(p.chain, q.chain) && (q.dsect != 0 ==> q.dsect in q.Sects())
  }

  /** The lasting part of it: what an operation on p does not change. */
  ghost predicate Resting(q: FileObject, f: Fat, d: seq<Sector>, w: nat)
    reads q, q.buf
  {
    && Rests(q, f, d, w) && q.Positioned() && !q.error && q.fptr <= q.fsize <= |q.bytes|
    && (q.dsect != 0 ==> q.dsect in q.Sects())
  }

  lemma BesideRests(p: FileObject, q: FileObject)
    requires Beside(p, q)
    ensures Resting(q, q.fs.fat, q.fs.data, q.fs.winsect) && q.buf != q.fs.win
    ensures if p.chain == [] then p.bytes == [] else IsChain(p.fs.fat, p.chain) && forall c :: c in p.chain ==> c < |p.fs.fat|
    ensures 2 <= p.fs.g.nFatent
    ensures 1 <= p.fs.g.nFats <= 2 && 1 <= p.fs.g.fatbase && DataFits(p.fs.g, p.fs.sectors) && |p.fs.fat| == p.fs.g.nFatent && |p.fs.data| == p.fs.sectors
  {
    hide FileSectors, IsChain, Rests, Volume.Decoded, Volume.WindowCoherent, Volume.DiskCoherent, Volume.MirrorCoherent, DataFits;
    RestsNow(q);
    p.EmptyFile();
    if p.chain != [] {
      ChainInside(p.fs.fat, p.chain);
    }
  }

  lemma ChainInside(f: Fat, ch: seq<nat>)
    requires IsChain(f, ch)
    ensures forall c :: c in ch ==> c < |f|
  {
    forall c | c in ch
      ensures c < |f|
    {
      var i :| 0 <= i < |ch| && ch[i] == c;
      assert InRange(f, ch[i]);
    }
  }

  lemma ApartSectors(g: Geometry, f: Fat, a: seq<nat>, b: seq<nat>)
    requires |f| == g.nFatent && 2 <= g.nFatent && 1 <= g.csize && Disjoint(a, b)
    requires (a != [] ==> IsChain(f, a)) && (b != [] ==> IsChain(f, b))
    ensures Disjoint(FileSectors(g, a), FileSectors(g, b)) && Disjoint(FileSectors(g, b), FileSectors(g, a))
  {
    hide FileSectors;
    FileSectorsDisjoint(g, a, b);
  }

  /** After p has grown and has written sectors of its own. */
  lemma BesideGrown(p: FileObject, q: FileObject, s0: Space, ch0: seq<nat>, d0: seq<Sector>, w0: nat)
    requires p.fs == q.fs && p != q && p.buf != q.buf && p.Valid() && p.Home()
    requires Resting(q, s0.fat, d0, w0) && Disjoint(ch0, q.chain)
    requires |s0.fat| == p.fs.g.nFatent && |d0| == p.fs.sectors
    requires Grown(s0, ch0, SpaceOf(p.fs), p.chain) && OnlyChanged(d0, p.fs.data, p.Sects())
    requires p.fs.winsect == w0 || InFat(p.fs.g, p.fs.winsect)
    ensures Beside(p, q)
  {
    hide FileSectors, ImageSector, IsChain, Grown, OnlyChanged, CountIsRight, FileObject.Buffered, FileObject.StoredElsewhere, FileObject.StoredHere, FileObject.Positioned,
      Volume.Decoded, Volume.WindowCoherent, Volume.DiskCoherent, Volume.MirrorCoherent, DataFits;
    if q.chain != [] {
      OtherFileKept(p.fs.g, p.fs.sectors, s0, ch0, SpaceOf(p.fs), p.chain, d0, p.fs.data, q.chain);
    }
    p.fs.Bounds();
    ChainSectors(p.fs, q.chain);
    ChainSectors(p.fs, p.chain);
    ApartSectors(p.fs.g, p.fs.fat, p.chain, q.chain);
    RestsStill(q, s0.fat, d0, w0, p.fs.fat, p.fs.data, p.fs.winsect, p.Sects());
    RestsNow(q);
  }

  /** f_write beside another open file. */
  method WriteBeside(p: FileObject, q: FileObject, buff: seq<Byte>) returns (res: FResult, bw: nat, ghost astray: bool)
    requires Beside(p, q)
    modifies p, p.buf, p.fs, p.fs.win
    ensures res == Ok && !astray ==> Beside(p, q) && q.Contents() == old(q.Contents())
    ensures res == Ok && !astray ==> bw <= |buff| && p.Contents() == Overwrite(old(p.Contents()), old(p.fptr), buff[..bw])
  {
    hide Resting, FileSectors, IsChain, Grown, OnlyChanged, CountIsRight, Overwrite, Explained, HasOne, NoneIsFree, FileObject.Layout, FileObject.Buffered, FileObject.StoredElsewhere, FileObject.StoredHere, FileObject.Positioned,
      Volume.Shape, Volume.Decoded, Volume.WindowCoherent, Volume.DiskCoherent, Volume.MirrorCoherent, DataFits;
    BesideRests(p, q);
    ghost var s0, ch0, d0, w0 := SpaceOf(p.fs), p.chain, p.fs.data, p.fs.winsect;
    res, bw, astray := p.Write(buff);
    if res == Ok && !astray {
      BesideGrown(p, q, s0, ch0, d0, w0);
    }
  }

  /** f_lseek beside another open file. */
  method SeekBeside(p: FileObject, q: FileObject, ofs: Dword) returns (res: FResult, ghost astray: bool)
    requires Beside(p, q)
    modifies p, p.buf, p.fs, p.fs.win
    ensures res == Ok && !astray ==> Beside(p, q) && q.Contents() == old(q.Contents()) && old(p.Contents()) <= p.Contents()
  {
    hide Resting, FileSectors, IsChain, Grown, OnlyChanged, CountIsRight, Explained, HasOne, NoneIsFree, FileObject.Layout, FileObject.Buffered, FileObject.StoredElsewhere, FileObject.StoredHere, FileObject.Positioned,
      Volume.Shape, Volume.Decoded, Volume.WindowCoherent, Volume.DiskCoherent, Volume.MirrorCoherent, DataFits;
    BesideRests(p, q);
    ghost var s0, ch0, d0, w0 := SpaceOf(p.fs), p.chain, p.fs.data, p.fs.winsect;
    res, astray := p.Seek(ofs);
    if res == Ok && !astray {
      BesideGrown(p, q, s0, ch0, d0, w0);
    }
  }

  /** f_read beside another open file. */
  method ReadBeside(p: FileObject, q: FileObject, btr: nat) returns (res: FResult, rbuff: seq<Byte>)
    requires Beside(p, q)
    modifies p, p.buf, p.fs, p.fs.win
    ensures res == Ok ==> Beside(p, q) && q.Contents() == old(q.Contents()) && p.Contents() == old(p.Contents())
  {
    hide Resting, FileSectors, IsChain, Grown, OnlyChanged, CountIsRight, Explained, HasOne, NoneIsFree, FileObject.Layout, FileObject.Buffered, FileObject.StoredElsewhere, FileObject.StoredHere, FileObject.Positioned,
      Volume.Shape, Volume.Decoded, Volume.WindowCoherent, Volume.DiskCoherent, Volume.MirrorCoherent, DataFits;
    BesideRests(p, q);
    ghost var s0, d0, w0 := SpaceOf(p.fs), p.fs.data, p.fs.winsect;
    GrownReflexive(s0, p.chain);
    res, rbuff := p.Read(btr);
    if res == Ok {
      BesideGrown(p, q, s0, p.chain, d0, w0);
    }
  }

  /** After the chain of p has been cut. */
  lemma BesideCut(p: FileObject, q: FileObject, f0: Fat, ch0: seq<nat>, n: nat, w0: nat)
    requires p.fs == q.fs && p != q && p.buf != q.buf && p.Valid() && Disjoint(ch0, q.chain)
    requires Resting(q, f0, p.fs.data, w0) && (ch0 != [] ==> IsChain(f0, ch0))
    requires n <= |ch0| && p.chain == ch0[..n] && (n > 0 ==> ch0[n - 1] < |f0|)
    requires p.fs.fat == f0 || (ch0 != [] && p.fs.fat == Cut(f0, ch0, n, EndValue(p.fs.g)))
    requires p.fs.winsect == w0 || InFat(p.fs.g, p.fs.winsect)
    ensures q.Valid() && Disjoint(p.chain, q.chain) && (p.Home() ==> Beside(p, q))
  {
    hide FileSectors, ImageSector, IsChain, Cut, FileObject.Buffered, FileObject.StoredElsewhere, FileObject.StoredHere, FileObject.Positioned,
      Volume.Decoded, Volume.WindowCoherent, Volume.DiskCoherent, Volume.MirrorCoherent, DataFits;
    if p.fs.fat != f0 && q.chain != [] {
      OtherFileKeptByCut(f0, ch0, n, EndValue(p.fs.g), q.chain);
    }
    ChainSectors(p.fs, q.chain);
    RestsStill(q, f0, p.fs.data, w0, p.fs.fat, p.fs.data, p.fs.winsect, []);
    RestsNow(q);
  }

  /** f_truncate beside another open file. */
  method TruncateBeside(p: FileObject, q: FileObject) returns (res: FResult)
    requires Beside(p, q)
    modifies p, p.buf, p.fs, p.fs.win
    ensures res == Ok ==> q.Valid() && q.Contents() == old(q.Contents()) && Disjoint(p.chain, q.chain) && (p.Home() ==> Beside(p, q))
  {
    hide Resting, Cut, FileSectors, IsChain, Grown, OnlyChanged, CountIsRight, Explained, HasOne, NoneIsFree, FileObject.Layout, FileObject.Buffered, FileObject.StoredElsewhere, FileObject.StoredHere, FileObject.Positioned,
      Volume.Shape, Volume.Decoded, Volume.WindowCoherent, Volume.DiskCoherent, Volume.MirrorCoherent, DataFits;
    BesideRests(p, q);
    ghost var f0, ch0, w0, n := p.fs.fat, p.chain, p.fs.winsect, if p.fsize > p.fptr then p.KeptClusters() else |p.chain|;
    res := p.TruncateFile();
    if res == Ok {
      assert n > 0 ==> ch0[n - 1] in ch0;
      BesideCut(p, q, f0, ch0, n, w0);
    }
  }

  // ---------- the pending write of a truncated file ----------

  /** One byte written to an empty file, a seek to its beginning, and a truncation: unless a disk operation fails,
      no cluster is free, or an entry is 1, the byte still waits in the buffer for a cluster that is free. */
  method WriteSeekTruncate(p: FileObject)
    requires p.Valid() && p.canWrite && p.fsize == 0 && p.chain == [] && p.Home()
    modifies p, p.buf, p.fs, p.fs.win
    ensures p.fs.errors > old(p.fs.errors) || NoneIsFree(old(p.fs.fat)) || HasOne(old(p.fs.fat))
         || (p.Valid() && p.fsize == 0 && !p.Home() && p.PendingInFree())
  {
    hide SectorIndex, Cut, Overwrite, FileSectors, IsChain, Grown, OnlyChanged, CountIsRight, HasOne, NoneIsFree, FileObject.Layout, FileObject.Buffered, FileObject.StoredElsewhere, FileObject.StoredHere, FileObject.Positioned,
      Volume.Shape, Volume.Decoded, Volume.WindowCoherent, Volume.DiskCoherent, Volume.MirrorCoherent, DataFits;
    var res, bw;
    ghost var astray;
    res, bw, astray := p.Write([1]);
    if res != Ok || bw == 0 { return; }
    res, astray := p.Seek(0);
    if res != Ok { return; }
    res := p.TruncateFile();
  }
}
