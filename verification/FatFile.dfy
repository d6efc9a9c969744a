/** File objects of FatFs: buffered reads, writes and seeks over a cluster chain, refined to
    operations on a byte sequence. */
module FatFile {
  import opened Basics
  import opened FatCodec
  import opened FatVolume
  import opened FatChains
  import opened FatSectors
  import opened FatAllocator
  import opened FatFileTheory

  /** What a transfer changes. */
  datatype FileState = FileState(space: Space, chain: seq<nat>, data: seq<Sector>, home: bool, dsect: nat, bytes: seq<Byte>, fptr: nat, fsize: nat)

  /** Up to where the bytes of a file are right after a transfer: to its end, or to the file pointer. */
  ghost function Upto(x: FileState, astray: bool): nat {
    if astray || x.fptr > x.fsize then x.fptr else x.fsize
  }

  /** Between the states x0 and x the bytes w have been put at the file pointer, which has moved behind them. The
      chain has grown no further than that needs, and nothing outside the file has been written. If an unreadable
      link has led astray, only the bytes before the file pointer are known. */
  ghost predicate Transferred(g: Geometry, x0: FileState, x: FileState, w: seq<Byte>, astray: bool)
    requires 2 <= g.nFatent
  {
    && x0.fptr <= Upto(x0, astray) <= |x0.bytes| && Upto(x, astray) <= |x.bytes|
    && x.fptr == x0.fptr + |w| && x.fsize == x0.fsize
    && x.bytes[..Upto(x, astray)] == Overwrite(x0.bytes[..Upto(x0, astray)], x0.fptr, w)
    && (!astray ==> Grown(x0.space, x0.chain, x.space, x.chain))
    && (!astray ==> x.chain == x0.chain || (x.chain != [] && (|x.chain| - 1) * (g.csize * 512) < x.fptr))
    && (!astray ==> x.dsect == x0.dsect || x.dsect in FileSectors(g, x.chain))
    && (!astray && x0.home ==> x.home && OnlyChanged(x0.data, x.data, FileSectors(g, x.chain)))
  }

  lemma NothingTransferred(g: Geometry, x: FileState)
    requires 2 <= g.nFatent && x.fptr <= x.fsize <= |x.bytes|
    ensures Transferred(g, x, x, [], false)
  {
    hide FileSectors, CountIsRight;
    GrownReflexive(x.space, x.chain);
    OverwriteNothing(x.bytes[..Upto(x, false)], x.fptr);
  }

  /** Two transfers in a row. */
  lemma TransferredTwice(g: Geometry, x0: FileState, x1: FileState, x2: FileState, w: seq<Byte>, e: seq<Byte>, was: bool, now: bool)
    requires 2 <= g.nFatent && (was ==> now) && Transferred(g, x0, x1, w, was) && Transferred(g, x1, x2, e, now)
    ensures Transferred(g, x0, x2, w + e, now)
  {
    hide FileSectors, Grown, CountIsRight, OnlyChanged, Overwrite;
    OverwriteOn(x0.bytes, Upto(x0, was), x0.fptr, w, was, now, x1.bytes, Upto(x1, false), e);
    if !now {
      GrownTransitive(x0.space, x0.chain, x1.space, x1.chain, x2.space, x2.chain);
      if x0.home {
        ChangedByGrown(g, x1.space, x1.chain, x2.space, x2.chain, x0.data, x1.data, x2.data);
      }
      GrownLeanly(g, x0, x1, x2);
      SectorKept(g, x1, x2);
    }
  }

  lemma SectorKept(g: Geometry, x1: FileState, x2: FileState)
    requires 2 <= g.nFatent && Grown(x1.space, x1.chain, x2.space, x2.chain)
    ensures x1.dsect in FileSectors(g, x1.chain) ==> x1.dsect in FileSectors(g, x2.chain)
  {
    hide FileSectors, CountIsRight;
    FileSectorsPrefix(g, x1.chain, x2.chain);
    PrefixMember(FileSectors(g, x1.chain), FileSectors(g, x2.chain), x1.dsect);
  }

  lemma GrownLeanly(g: Geometry, x0: FileState, x1: FileState, x2: FileState)
    requires x1.chain == x0.chain || (x1.chain != [] && (|x1.chain| - 1) * (g.csize * 512) < x1.fptr)
    requires x2.chain == x1.chain || (x2.chain != [] && (|x2.chain| - 1) * (g.csize * 512) < x2.fptr)
    requires x1.fptr <= x2.fptr
    ensures x2.chain == x0.chain || (x2.chain != [] && (|x2.chain| - 1) * (g.csize * 512) < x2.fptr)
  {
  }

  class FileObject {
    const fs: Volume
    const buf: array<Byte>
    const canRead: bool
    const canWrite: bool

    var dirty: bool        // FA__DIRTY
    var written: bool      // FA__WRITTEN
    var error: bool        // FA__ERROR
    var fptr: Dword
    var fsize: Dword
    var orgClust: nat
    var currClust: nat
    var dsect: nat

    ghost var chain: seq<nat>   // the clusters of the file
    ghost var bytes: seq<Byte>  // the bytes of their sectors, with the sector buffer laid over them
    ghost var ci: nat           // index of currClust in the chain

    ghost function Sects(): seq<nat>
      requires 2 <= fs.g.nFatent
      reads this`chain
    {
      FileSectors(fs.g, chain)
    }

    ghost predicate Coherent()
      reads this, fs, fs.win, buf
    {
      fs.Valid() && 2 <= fs.g.nFatent && Layout() && Buffered() && StoredElsewhere() && StoredHere()
    }

    /** The file occupies a terminated chain. The window shows none of its sectors, nor the buffered one. */
    ghost predicate Layout()
      requires 2 <= fs.g.nFatent
      reads this`chain, this`orgClust, this`bytes, this`dsect, fs`fat, fs`winsect
    {
      && buf.Length == 512 && buf != fs.win
      && (chain == [] ==> orgClust == 0)
      && (chain != [] ==> IsChain(fs.fat, chain) && orgClust == chain[0])
      && |bytes| == 512 * |Sects()|
      && fs.winsect !in Sects()
      && (dsect != 0 ==> DataSector(fs.g, dsect) && dsect < fs.sectors && dsect != fs.winsect)
    }

    /** The buffer holds the content of its sector if that is one of the file. */
    ghost predicate Buffered()
      requires 2 <= fs.g.nFatent
      requires |bytes| == 512 * |Sects()|
      reads this`chain, this`bytes, this`dsect, buf
    {
      forall k: nat :: k < |Sects()| && Sects()[k] == dsect ==> buf[..] == ImageSector(bytes, k)
    }

    ghost predicate StoredElsewhere()
      requires 2 <= fs.g.nFatent
      requires |bytes| == 512 * |Sects()|
      reads this`chain, this`bytes, this`dsect, fs`data
    {
      forall k: nat :: k < |Sects()| && Sects()[k] != dsect ==>
        Sects()[k] < |fs.data| && fs.data[Sects()[k]] == ImageSector(bytes, k)
    }

    /** A clean buffer is what the volume has in its sector, of the file or not. */
    ghost predicate StoredHere()
      reads this`dsect, this`dirty, fs`data, buf
    {
      && (dirty ==> dsect != 0)
      && (dsect != 0 && !dirty ==> dsect < |fs.data| && fs.data[dsect] == buf[..])
    }

    /** No write to a sector outside the file is pending. */
    ghost predicate Home()
      requires 2 <= fs.g.nFatent
      reads this`chain, this`dsect, this`dirty
    {
      dirty ==> dsect in Sects()
    }

    /** currClust is the cluster of the file's sector k. */
    ghost predicate InCluster(k: nat)
      reads this`chain, this`currClust, this`ci
    {
      ci < |chain| && currClust == chain[ci] && ci * fs.g.csize <= k < ci * fs.g.csize + fs.g.csize
    }

    /** The file pointer lies inside the chain, currClust is the cluster of the byte before it, and
        inside a sector the buffer holds that sector. */
    ghost predicate Positioned()
      requires 2 <= fs.g.nFatent
      reads this`chain, this`bytes, this`currClust, this`ci, this`fptr, this`dsect
    {
      && fptr <= |bytes|
      && (fptr > 0 ==> InCluster(SectorIndex(fptr - 1)))
      && (!OnBoundary(fptr) ==> SectorIndex(fptr) < |Sects()| && dsect == Sects()[SectorIndex(fptr)])
    }

    /** An open file that no error has spoilt. */
    ghost predicate Valid()
      reads this, fs, fs.win, buf
    {
      Coherent() && Positioned() && !error && fptr <= fsize <= |bytes|
    }

    /** What the file contains. */
    ghost function Contents(): seq<Byte>
      requires fsize <= |bytes|
      reads this`bytes, this`fsize
    {
      bytes[..fsize]
    }

    /** f_open on an existing chain: nothing buffered, the pointer at the top. */
    constructor (fs: Volume, buf: array<Byte>, canRead: bool, canWrite: bool, start: nat, size: Dword, ghost ch: seq<nat>)
      requires fs.Valid() && 2 <= fs.g.nFatent && buf.Length == 512 && buf != fs.win
      requires if ch == [] then start == 0 else IsChain(fs.fat, ch) && start == ch[0]
      requires fs.winsect !in FileSectors(fs.g, ch) && size <= 512 * |FileSectors(fs.g, ch)|
      ensures Valid() && this.fs == fs && this.buf == buf && this.canRead == canRead && this.canWrite == canWrite
      ensures chain == ch && fptr == 0 && fsize == size && !dirty && !written
      ensures InDisk(fs.data, Sects()) && bytes == Gather(fs.data, Sects())
    {
      this.fs, this.buf, this.canRead, this.canWrite := fs, buf, canRead, canWrite;
      dirty, written, error, fptr, fsize := false, false, false, 0, size;
      orgClust, currClust, dsect := start, 0, 0;
      chain, ci := ch, 0;
      ChainSectors(fs, ch);
      bytes := Gather(fs.data, FileSectors(fs.g, ch));
      new;
      FreshIsCoherent();
    }

    /** The bytes that n clusters hold. */
    ghost function Capacity(n: nat): nat {
      n * (fs.g.csize * 512)
    }

    /** Nothing buffered, and the bytes are those on the volume. */
    lemma FreshIsCoherent()
      requires fs.Valid() && 2 <= fs.g.nFatent && buf.Length == 512 && buf != fs.win
      requires if chain == [] then orgClust == 0 else IsChain(fs.fat, chain) && orgClust == chain[0]
      requires fs.winsect !in Sects() && dsect == 0 && !dirty
      requires InDisk(fs.data, Sects()) && bytes == Gather(fs.data, Sects())
      ensures Coherent()
    {
      hide Gather, ImageSector, FileSectors, Volume.Shape, Volume.Decoded, Volume.WindowCoherent, Volume.DiskCoherent, Volume.MirrorCoherent, DataFits;
      ChainSectors(fs, chain);
      forall k: nat | k < |Sects()|
        ensures ImageSector(bytes, k) == fs.data[Sects()[k]]
      {
        GatherAt(fs.data, Sects(), k);
      }
    }

    /** Writes a dirty buffer back to its sector. */
    method Flush() returns (ok: bool)
      requires Coherent()
      modifies this`dirty, fs`disk, fs`faults, fs`errors, fs`data
      ensures ok ==> Coherent() && !dirty && (old(Home()) ==> OnlyChanged(old(fs.data), fs.data, Sects()))
      ensures ok ==> dsect < |old(fs.data)| || !old(dirty)
      ensures ok ==> fs.data == if old(dirty) then old(fs.data)[dsect := buf[..]] else old(fs.data)
      ensures !ok ==> fs.Valid() && fs.errors > old(fs.errors)
      ensures fs.Tried() && (dirty ==> old(dirty))
    {
      hide FileSectors, Volume.Shape, Volume.Decoded, Volume.WindowCoherent, Volume.DiskCoherent, Volume.MirrorCoherent, DataFits;
      ChainSectors(fs, chain);
      fs.Bounds();
      ok := true;
      if dirty {
        ok := fs.WriteRun(buf[..], dsect, 1);
        if !ok { return; }
        dirty := false;
        OneSectorRun(old(fs.data), dsect, buf[..]);
      }
    }

    /** What the sectors s hold, with a dirty buffer laid over the volume. */
    ghost function Laid(): seq<Sector>
      requires buf.Length == 512
      reads this`dsect, this`dirty, fs`data, buf
    {
      if dirty && dsect < |fs.data| then fs.data[dsect := buf[..]] else fs.data
    }

    /** The chain has been extended by cluster c, which the window does not show. */
    ghost method Extend(c: nat)
      requires fs.Valid() && 2 <= fs.g.nFatent && buf.Length == 512 && buf != fs.win && InFat(fs.g, fs.winsect)
      requires |bytes| == 512 * |Sects()| && Buffered() && StoredElsewhere() && StoredHere()
      requires dsect != 0 ==> DataSector(fs.g, dsect) && dsect < fs.sectors
      requires IsChain(fs.fat, chain + [c]) && orgClust == (chain + [c])[0]
      modifies this`chain, this`bytes
      ensures Coherent() && chain == old(chain) + [c] && old(bytes) <= bytes
    {
      hide Gather, FileSectors, ClusterSectors, ImageSector, Volume.Shape, Volume.Decoded, Volume.WindowCoherent,
        Volume.DiskCoherent, Volume.MirrorCoherent, DataFits, IsChain;
      ChainSectors(fs, chain + [c]);
      FileSectorsAppend(fs.g, chain, c);
      var s0, s1 := Sects(), ClusterSectors(fs.g, c);
      assert FileSectors(fs.g, chain + [c]) == s0 + s1;
      forall i | 0 <= i < |s1|
        ensures s1[i] < |fs.data|
      {
        assert (s0 + s1)[|s0| + i] == s1[i];
      }
      var e := Gather(Laid(), s1);
      forall k: nat | k < |s0 + s1|
        ensures ImageSector(bytes + e, k) == if k < |s0| then ImageSector(bytes, k) else Laid()[(s0 + s1)[k]]
      {
        AppendedSector(bytes, e, |s0|, k);
        if k >= |s0| {
          GatherAt(Laid(), s1, k - |s0|);
        }
      }
      chain := chain + [c];
      bytes := bytes + e;
    }

    /** The index of the cluster that a transfer at a cluster boundary goes on in. */
    ghost function NextIndex(): nat
      reads this`fptr, this`ci
    {
      if fptr == 0 then 0 else ci + 1
    }

    /** The chain ch0 has not been extended further than a byte past position p needs. */
    ghost predicate Lean(ch0: seq<nat>, p: nat)
      reads this`chain
    {
      chain == ch0 || (chain != [] && Capacity(|chain| - 1) <= p)
    }

    /** The part of f_write that finds the cluster at the file pointer when a cluster begins there. */
    method ClusterForWrite() returns (clst: nat, ghost astray: bool)
      requires Coherent() && (fptr > 0 ==> ci < |chain| && currClust == chain[ci] && fptr == Capacity(ci + 1))
      modifies this`orgClust, this`chain, this`bytes
      modifies fs`disk, fs`faults, fs`winsect, fs`wflag, fs`errors, fs`mirrorLost
      modifies fs`image, fs`fat, fs`freeClust, fs`lastClust, fs`fsiFlag, fs.win
      ensures fs.Valid() && fs.Looked() && (astray ==> fs.errors > old(fs.errors))
      ensures clst == 0 ==> Coherent() && chain == old(chain) && bytes == old(bytes) && NoneIsFree(fs.fat) && SpaceOf(fs) == old(SpaceOf(fs))
      ensures clst == 0 && !astray ==> fptr == |bytes|
      ensures 1 < clst != DISK_ERROR ==> Coherent() && NextIndex() < |chain| && clst == chain[NextIndex()] && SamePrefix(old(bytes), bytes, fptr)
      ensures 1 < clst != DISK_ERROR && !astray ==>
                Grown(old(SpaceOf(fs)), old(chain), SpaceOf(fs), chain) && old(bytes) <= bytes && Lean(old(chain), fptr)
      ensures Explained(Outcome(clst), fs.errors > old(fs.errors), old(fs.fat), fs.fat)
    {
      hide HasOne, FileSectors, ImageSector, IsChain, Created, Grown, SamePrefix, CountIsRight, Buffered, StoredHere, StoredElsewhere, Volume.Shape, Volume.Decoded, Volume.WindowCoherent, Volume.DiskCoherent, Volume.MirrorCoherent, DataFits, Truncate;
      fs.Bounds();
      ghost var end := EndValue(fs.g);
      ghost var s0 := SpaceOf(fs);
      GrownReflexive(s0, chain);
      NotEmptyChain();
      AllCapacity();
      astray := false;
      if fptr == 0 {
        clst := orgClust;
        NothingBefore(bytes);
        if clst == 0 {
          clst, astray := CreateForEmpty();
        }
      } else {
        clst, astray := NextCluster();
      }
    }

    /** create_chain for a file that has no cluster. */
    method CreateForEmpty() returns (clst: nat, ghost astray: bool)
      requires Coherent() && chain == []
      modifies this`orgClust, this`chain, this`bytes
      modifies fs`disk, fs`faults, fs`winsect, fs`wflag, fs`errors, fs`mirrorLost
      modifies fs`image, fs`fat, fs`freeClust, fs`lastClust, fs`fsiFlag, fs.win
      ensures fs.Valid() && fs.Looked() && !astray && orgClust == clst
      ensures clst == 0 ==> Coherent() && chain == [] && bytes == old(bytes) && NoneIsFree(fs.fat) && SpaceOf(fs) == old(SpaceOf(fs))
      ensures 1 < clst != DISK_ERROR ==>
                Coherent() && chain == [clst] && Grown(old(SpaceOf(fs)), [], SpaceOf(fs), chain) && old(bytes) == []
      ensures Explained(Outcome(clst), fs.errors > old(fs.errors), old(fs.fat), fs.fat)
    {
      hide HasOne, FileSectors, ImageSector, IsChain, Created, Grown, CountIsRight, Buffered, StoredHere, StoredElsewhere, Volume.Shape, Volume.Decoded, Volume.WindowCoherent, Volume.DiskCoherent, Volume.MirrorCoherent, DataFits, Truncate;
      fs.Bounds();
      EmptyFile();
      ghost var s0, end := SpaceOf(fs), EndValue(fs.g);
      clst, astray := CreateChain(fs, 0);
      orgClust := clst;
      CreateExplained(s0.fat, fs.fat, 0, clst, end, astray, fs.errors > old(fs.errors));
      if clst == 0 {
        ChainFull(s0, SpaceOf(fs), [], 0, end);
        WindowElsewhere();
      } else if clst > 1 && clst != DISK_ERROR {
        ChainStarted(s0, SpaceOf(fs), clst, end);
        assert [] + [clst] == [clst];
        Extend(clst);
      }
    }

    /** create_chain on the current cluster of the file: the next cluster, allocated if there is none. astray
        tells that there is a next one whose link could not be read. The code has then gone on as if there were
        none, and the chain ends in a new cluster behind the current one. */
    method NextCluster() returns (clst: nat, ghost astray: bool)
      requires Coherent() && ci < |chain| && currClust == chain[ci]
      modifies this`chain, this`bytes
      modifies fs`disk, fs`faults, fs`winsect, fs`wflag, fs`errors, fs`mirrorLost
      modifies fs`image, fs`fat, fs`freeClust, fs`lastClust, fs`fsiFlag, fs.win
      ensures fs.Valid() && fs.Looked()
      ensures astray ==> fs.errors > old(fs.errors) && ci + 1 < |old(chain)|
      ensures clst == 0 ==> Coherent() && chain == old(chain) && bytes == old(bytes) && NoneIsFree(fs.fat) && SpaceOf(fs) == old(SpaceOf(fs))
      ensures clst == 0 && !astray ==> ci + 1 == |chain|
      ensures 1 < clst != DISK_ERROR ==> Coherent() && ci + 1 < |chain| && clst == chain[ci + 1] && SamePrefix(old(bytes), bytes, Capacity(ci + 1))
      ensures 1 < clst != DISK_ERROR && !astray ==>
                Grown(old(SpaceOf(fs)), old(chain), SpaceOf(fs), chain) && old(bytes) <= bytes && (chain == old(chain) || ci + 2 == |chain|)
      ensures 1 < clst != DISK_ERROR ==> (astray <==> !(old(chain) <= chain)) && (astray ==> chain == old(chain)[..ci + 1] + [clst])
      ensures Explained(Outcome(clst), fs.errors > old(fs.errors), old(fs.fat), fs.fat)
    {
      hide HasOne, FileSectors, ImageSector, IsChain, Created, TookCluster, Grown, SamePrefix, CountIsRight, Buffered, StoredHere, StoredElsewhere, Volume.Shape, Volume.Decoded, Volume.WindowCoherent, Volume.DiskCoherent, Volume.MirrorCoherent, DataFits, Truncate;
      fs.Bounds();
      ghost var end := EndValue(fs.g);
      ghost var s0, ch0 := SpaceOf(fs), chain;
      GrownReflexive(s0, chain);
      CapacityInside(ci + 1);
      LastInChain(fs.fat, chain, ci);
      clst, astray := CreateChain(fs, currClust);
      CreateExplained(s0.fat, fs.fat, currClust, clst, end, astray, fs.errors > old(fs.errors));
      if astray {
        ChainStrayed(s0.fat, fs.fat, chain, ci, clst, end);
        if ci + 1 == |chain| {
          astray := false;
        }
      }
      if clst == 0 {
        NoneTaken(s0.fat, fs.fat, currClust, end, astray);
        if !astray {
          ChainFull(s0, SpaceOf(fs), chain, ci, end);
        }
        WindowElsewhere();
      } else if clst > 1 && clst != DISK_ERROR {
        if astray {
          Shorten(ci + 1);
          assert chain[0] == ch0[0];
          Extend(clst);
        } else {
          ChainFollowed(s0, SpaceOf(fs), chain, ci, clst, end);
          if ci + 1 == |chain| {
            Extend(clst);
          } else {
            WindowElsewhere();
          }
        }
        PrefixOfLonger(old(bytes), bytes, Capacity(ci + 1));
      }
    }

    /** In the bytes b everything before the first position is what it was. */
    lemma NothingBefore(b: seq<Byte>)
      ensures forall c: seq<Byte> :: SamePrefix(b, c, 0)
    {
    }

    lemma AllCapacity()
      requires 2 <= fs.g.nFatent && |bytes| == 512 * |Sects()|
      ensures |bytes| == Capacity(|chain|) && Capacity(0) == 0
    {
      hide FileSectors;
      FileSectorsLength(fs.g, chain);
      assert 512 * (|chain| * fs.g.csize) == |chain| * (fs.g.csize * 512);
    }

    lemma BytesFit()
      requires Coherent()
      ensures 2 <= fs.g.nFatent && |bytes| == 512 * |Sects()| && |bytes| == Capacity(|chain|) && buf != fs.win
    {
      hide FileSectors, IsChain, Capacity, Buffered, StoredHere, StoredElsewhere, Volume.Shape, Volume.Decoded, Volume.WindowCoherent, Volume.DiskCoherent,
        Volume.MirrorCoherent, DataFits;
      AllCapacity();
    }

    /** Where the buffer is clean the volume holds the bytes of the file. */
    lemma CleanStored()
      requires Coherent() && !dirty
      ensures forall j: nat :: j < |Sects()| ==> Sects()[j] < |fs.data| && fs.data[Sects()[j]] == ImageSector(bytes, j)
      ensures forall j: nat :: j < |Sects()| && Sects()[j] == dsect ==> buf[..] == ImageSector(bytes, j)
      ensures dsect != 0 ==> dsect < |fs.data| && fs.data[dsect] == buf[..]
    {
      hide FileSectors, ImageSector, IsChain, Volume.Shape, Volume.Decoded, Volume.WindowCoherent, Volume.DiskCoherent, Volume.MirrorCoherent, DataFits;
      ChainSectors(fs, chain);
    }

    lemma CapacityInside(n: nat)
      requires 2 <= fs.g.nFatent && |bytes| == 512 * |Sects()| && n <= |chain|
      ensures Capacity(n) <= |bytes|
    {
      hide FileSectors;
      AllCapacity();
      MulMonotone(n, |chain|, fs.g.csize * 512);
    }

    lemma NotEmptyChain()
      requires 2 <= fs.g.nFatent && Layout() && |fs.fat| < DISK_ERROR
      ensures if chain == [] then orgClust == 0 else orgClust == chain[0] && 2 <= orgClust < DISK_ERROR
    {
      if chain != [] {
        FirstOfChain(fs.fat, chain);
      }
    }

    /** A FAT sector is no sector of the file. */
    lemma WindowElsewhere()
      requires fs.Valid() && 2 <= fs.g.nFatent && (chain == [] || IsChain(fs.fat, chain))
      ensures InFat(fs.g, fs.winsect) ==> fs.winsect !in Sects()
    {
      hide FileSectors, Volume.Shape, Volume.Decoded, Volume.WindowCoherent, Volume.DiskCoherent, Volume.MirrorCoherent;
      ChainSectors(fs, chain);
    }

    /** The sector of the file pointer inside its cluster; 0 where a new cluster begins. */
    method SectorInCluster() returns (csect: nat)
      requires fs.g.csize >= 1 && 2 <= fs.g.nFatent && OnBoundary(fptr) && Positioned()
      ensures fptr == 0 ==> csect == 0
      ensures csect == 0 && fptr > 0 ==> AtNextCluster(SectorIndex(fptr))
      ensures csect != 0 ==> InCluster(SectorIndex(fptr)) && csect == SectorIndex(fptr) - ci * fs.g.csize
    {
      hide FileSectors, SectorIndex, OnBoundary;
      SectorZero();
      csect := SectorIndex(fptr) % fs.g.csize;
      if fptr > 0 {
        SectorBefore(fptr);
        OffsetInCluster(SectorIndex(fptr), ci, fs.g.csize);
      }
    }

    /** Sector k is the one after the cluster currClust. */
    ghost predicate AtNextCluster(k: nat)
      reads this`chain, this`currClust, this`ci
    {
      ci < |chain| && currClust == chain[ci] && k == (ci + 1) * fs.g.csize
    }

    lemma StartsCluster(i: nat)
      requires fs.g.csize >= 1 && i < |chain| && currClust == chain[i] && ci == i
      ensures InCluster(i * fs.g.csize)
    {
    }

    /** The head of the loop of f_write on a sector boundary: steps to the cluster of the file pointer,
        allocating one if needed; full when there is none, csect is the sector inside the cluster. */
    method StepForWrite() returns (res: FResult, full: bool, csect: nat, ghost astray: bool)
      requires Coherent() && Positioned() && OnBoundary(fptr)
      modifies this`orgClust, this`currClust, this`ci, this`chain, this`bytes, this`error
      modifies fs`disk, fs`faults, fs`winsect, fs`wflag, fs`errors, fs`mirrorLost
      modifies fs`image, fs`fat, fs`freeClust, fs`lastClust, fs`fsiFlag, fs.win
      ensures fs.Valid() && (res == Ok ==> error == old(error)) && (res != Ok ==> error)
      ensures fs.Looked() && (astray ==> fs.errors > old(fs.errors))
      ensures res == Ok && full ==> Coherent() && chain == old(chain) && bytes == old(bytes) && NoneIsFree(fs.fat) && SpaceOf(fs) == old(SpaceOf(fs))
      ensures res == Ok && full ==> currClust == old(currClust) && ci == old(ci) && (!astray ==> fptr == |bytes|)
      ensures res == Ok && !full ==> Coherent() && InCluster(SectorIndex(fptr)) && csect == SectorIndex(fptr) - ci * fs.g.csize
      ensures res == Ok && !full ==> SamePrefix(old(bytes), bytes, fptr)
      ensures res == Ok && !full && !astray ==>
                Grown(old(SpaceOf(fs)), old(chain), SpaceOf(fs), chain) && old(bytes) <= bytes && Lean(old(chain), fptr)
      ensures Explained(res, fs.errors > old(fs.errors), old(fs.fat), fs.fat)
    {
      hide HasOne, FileSectors, ImageSector, IsChain, Grown, CountIsRight, SamePrefix, NoneIsFree, Layout, Buffered, StoredHere, StoredElsewhere,
        Volume.Shape, Volume.Decoded, Volume.WindowCoherent, Volume.DiskCoherent, Volume.MirrorCoherent, InCluster;
      res, full, astray := Ok, false, false;
      GrownReflexive(SpaceOf(fs), chain);
      PrefixOfLonger(bytes, bytes, fptr);
      csect := SectorInCluster();
      if csect == 0 {
        if fptr > 0 {
          BoundaryCapacity(ci + 1);
        }
        var clst;
        clst, astray := ClusterForWrite();
        if clst == 0 { full := true; return; }
        if clst == 1 { error := true; return IntErr, false, 0, astray; }
        if clst == DISK_ERROR { error := true; return DiskErr, false, 0, astray; }
        currClust := clst;
        ci := if fptr == 0 then 0 else ci + 1;
        StartsCluster(ci);
      }
    }

    lemma BoundaryCapacity(n: nat)
      requires OnBoundary(fptr) && SectorIndex(fptr) == n * fs.g.csize
      ensures fptr == Capacity(n)
    {
      assert 512 * (n * fs.g.csize) == n * (fs.g.csize * 512);
    }

    /** Sectors k to k + cc - 1 of the file are consecutive on the disk, from sect on. */
    ghost predicate RunAt(k: nat, sect: nat, cc: nat)
      requires 2 <= fs.g.nFatent
      reads this`chain
    {
      k + cc <= |Sects()| && forall j: nat :: k <= j < k + cc ==> Sects()[j] == sect + (j - k)
    }

    /** The sectors of one cluster are consecutive; its number is valid for clust2sect. */
    lemma ClusterRun(k: nat, cc: nat)
      requires fs.Valid() && 2 <= fs.g.nFatent && InCluster(k) && k + cc <= ci * fs.g.csize + fs.g.csize
      requires IsChain(fs.fat, chain)
      ensures 0 < Clust2Sect(fs.g, currClust) && 0 < Clust2Sect(fs.g, currClust) + (k - ci * fs.g.csize)
      ensures RunAt(k, Clust2Sect(fs.g, currClust) + (k - ci * fs.g.csize), cc)
      ensures k < |Sects()| && Sects()[k] == Clust2Sect(fs.g, currClust) + (k - ci * fs.g.csize)
    {
      hide FileSectors, Clust2Sect, Volume.Decoded, Volume.WindowCoherent, Volume.DiskCoherent, Volume.MirrorCoherent;
      ClusterInside(fs.g, fs.sectors, currClust, k - ci * fs.g.csize);
      FileSectorAt(fs.g, chain, ci, fs.g.csize - 1);
      FileSectorAt(fs.g, chain, ci, k - ci * fs.g.csize);
      forall j: nat | k <= j < k + cc
        ensures Sects()[j] == Clust2Sect(fs.g, currClust) + (k - ci * fs.g.csize) + (j - k)
      {
        FileSectorAt(fs.g, chain, ci, j - ci * fs.g.csize);
      }
    }

    /** A run of the file's sectors lies in the data area, past the window. */
    lemma RunIsData(k: nat, sect: nat, cc: nat)
      requires fs.Valid() && 2 <= fs.g.nFatent && Layout() && RunAt(k, sect, cc) && cc >= 1
      ensures fs.DataRun(sect, cc)
    {
      hide FileSectors, Volume.Shape, Volume.Decoded, Volume.WindowCoherent, Volume.DiskCoherent, Volume.MirrorCoherent, IsChain;
      ChainSectors(fs, chain);
      RunInFile(k, sect, cc);
      assert sect in Sects() && sect + cc - 1 in Sects();
    }

    lemma RunInFile(k: nat, sect: nat, cc: nat)
      requires 2 <= fs.g.nFatent && RunAt(k, sect, cc)
      ensures forall s: nat :: sect <= s < sect + cc ==> s in Sects()
    {
      hide FileSectors;
      forall s: nat | sect <= s < sect + cc
        ensures s in Sects()
      {
        assert Sects()[k + (s - sect)] == s;
      }
    }

    /** The direct transfer of f_write: whole sectors from the caller's memory to the disk; a clean buffer
        that shows one of them is refilled. */
    method WriteDirect(wbuff: seq<Byte>, sect: nat, cc: nat, ghost k: nat) returns (res: FResult)
      requires Coherent() && !dirty && cc >= 1 && |wbuff| == 512 * cc && RunAt(k, sect, cc)
      modifies this`dirty, this`bytes, this`error, buf
      modifies fs`disk, fs`faults, fs`errors, fs`data
      ensures fs.Valid() && (res == Ok ==> error == old(error)) && (res != Ok ==> error && res == DiskErr && fs.errors > old(fs.errors))
      ensures 512 * k + |wbuff| <= |old(bytes)|
      ensures res == Ok ==> Coherent() && !dirty
                            && bytes == Splice(old(bytes), 512 * k, wbuff)
      ensures res == Ok ==> OnlyChanged(old(fs.data), fs.data, Sects()) && fs.errors == old(fs.errors)
      ensures fs.Tried()
    {
      hide FileSectors, ImageSector, IsChain, Splice, SetRun, Volume.Shape, Volume.Decoded, Volume.WindowCoherent, Volume.DiskCoherent, Volume.MirrorCoherent;
      RunIsData(k, sect, cc);
      CleanStored();
      var ok := fs.WriteRun(wbuff, sect, cc);
      if !ok {
        error := true;
        return DiskErr;
      }
      if sect <= dsect < sect + cc {
        var part := ImageSector(wbuff, dsect - sect);
        forall i | 0 <= i < 512 { buf[i] := part[i]; }
        dirty := false;
        assert buf[..] == part;
      }
      bytes := Splice(bytes, 512 * k, wbuff);
      RunIsCoherent(old(bytes), old(buf[..]), old(fs.data), wbuff, sect, cc, k);
      res := Ok;
    }

    /** The file after a run of its sectors has been written past a clean buffer. */
    lemma RunIsCoherent(b: seq<Byte>, bf: seq<Byte>, d0: seq<Sector>, wbuff: seq<Byte>, sect: nat, cc: nat, k: nat)
      requires fs.Valid() && 2 <= fs.g.nFatent && Layout() && RunAt(k, sect, cc) && |wbuff| == 512 * cc
      requires fs.data == SetRun(d0, sect, wbuff, cc) && !dirty && (dsect != 0 ==> dsect < |d0| && d0[dsect] == bf)
      requires |b| == |bytes| && 512 * k + |wbuff| <= |b| && bytes == Splice(b, 512 * k, wbuff)
      requires forall j: nat :: j < |Sects()| ==> Sects()[j] < |d0| && d0[Sects()[j]] == ImageSector(b, j)
      requires forall j: nat :: j < |Sects()| && Sects()[j] == dsect ==> bf == ImageSector(b, j)
      requires buf[..] == if sect <= dsect < sect + cc then ImageSector(wbuff, dsect - sect) else bf
      ensures Coherent() && OnlyChanged(d0, fs.data, Sects())
    {
      hide FileSectors, ImageSector, IsChain, Splice, Volume.Shape, Volume.Decoded, Volume.WindowCoherent, Volume.DiskCoherent, Volume.MirrorCoherent;
      ChainSectors(fs, chain);
      forall j: nat | j < |Sects()|
        ensures fs.data[Sects()[j]] == ImageSector(bytes, j)
        ensures Sects()[j] == dsect ==> buf[..] == ImageSector(bytes, j)
      {
        SpliceSectors(b, k, wbuff, cc, j);
        OutsideRun(k, sect, cc, j);
      }
      RunInFile(k, sect, cc);
    }

    lemma OutsideRun(k: nat, sect: nat, cc: nat, j: nat)
      requires 2 <= fs.g.nFatent && RunAt(k, sect, cc) && Distinct(Sects()) && j < |Sects()|
      ensures k <= j < k + cc <==> sect <= Sects()[j] < sect + cc
      ensures k <= j < k + cc ==> Sects()[j] - sect == j - k
    {
      hide FileSectors;
      if sect <= Sects()[j] < sect + cc {
        var i := k + (Sects()[j] - sect);
        assert Sects()[i] == Sects()[j];
      }
    }

    /** The buffer shows the file's sector k; it may be newer than the disk. */
    ghost predicate Loaded(k: nat)
      reads this, fs, fs.win, buf
    {
      && fs.Valid() && 2 <= fs.g.nFatent && Layout() && Buffered() && StoredElsewhere()
      && k < |Sects()| && dsect == Sects()[k]
    }

    /** disk_read of one sector into the buffer. */
    method FetchSector(sect: nat) returns (ok: bool)
      requires fs.Valid() && buf.Length == 512 && buf != fs.win && fs.DataRun(sect, 1)
      modifies buf, fs`faults, fs`errors
      ensures fs.Valid()
      ensures ok ==> sect < |fs.data| && buf[..] == fs.data[sect] && fs.errors == old(fs.errors)
      ensures fs.Tried() && (!ok ==> fs.errors > old(fs.errors))
    {
      hide Gather, Volume.Shape, Volume.Decoded, Volume.WindowCoherent, Volume.DiskCoherent, Volume.MirrorCoherent, DataFits;
      var content;
      ok, content := fs.ReadRun(sect, 1);
      if ok {
        OneGathered(fs.data, sect);
        forall i | 0 <= i < 512 { buf[i] := content[i]; }
        assert buf[..] == content;
      }
    }

    /** f_write on a sector boundary, before a partial sector: fetches the sector at the file pointer into
        the clean buffer, unless the file grows there; then whatever the buffer holds becomes the sector. */
    method LoadForWrite(sect: nat, ghost k: nat) returns (res: FResult)
      requires Coherent() && !dirty && k < |Sects()| && Sects()[k] == sect
      modifies this`dsect, this`bytes, this`error, buf
      modifies fs`faults, fs`errors
      ensures fs.Valid() && (res == Ok ==> error == old(error)) && (res != Ok ==> error && res == DiskErr && fs.errors > old(fs.errors))
      ensures res == Ok ==> Loaded(k) && |bytes| == |old(bytes)|
      ensures res == Ok ==> 512 * k + 512 <= |bytes| && bytes[..512 * k] == old(bytes)[..512 * k]
      ensures res == Ok && fptr < fsize ==> bytes == old(bytes)
      ensures fs.Tried()
    {
      hide FileSectors, ImageSector, IsChain, Splice, Gather, Volume.Shape, Volume.Decoded, Volume.WindowCoherent, Volume.DiskCoherent, Volume.MirrorCoherent;
      ChainSectors(fs, chain);
      RunIsData(k, sect, 1);
      ghost var bf := buf[..];
      if dsect != sect {
        if fptr < fsize {
          var ok := FetchSector(sect);
          if !ok {
            error := true;
            return DiskErr;
          }
        } else {
          ReplacedSector(bytes, k, buf[..], |Sects()|);
          bytes := Splice(bytes, 512 * k, buf[..]);
        }
      }
      dsect := sect;
      res := Ok;
    }

    /** The tail of the loops of f_read and f_write: at most the rest of the sector. */
    static function PartialCount(fptr: nat, want: nat): (n: nat)
      ensures n <= want && fptr % 512 + n <= 512
      ensures want > 0 ==> n > 0
    {
      var rest := 512 - fptr % 512;
      if rest > want then want else rest
    }

    /** The buffered transfer of f_write: part of a sector goes to the buffer, which is dirty from now on. */
    method PutPartial(wbuff: seq<Byte>) returns (wcnt: nat)
      requires Loaded(SectorIndex(fptr)) && |wbuff| > 0
      modifies this`dirty, this`bytes, buf
      ensures Coherent() && dirty && Home() && wcnt == PartialCount(fptr, |wbuff|) && fptr + wcnt <= |old(bytes)|
      ensures bytes == Splice(old(bytes), fptr, wbuff[..wcnt])
    {
      hide FileSectors, ImageSector, IsChain, Splice, Volume.Shape, Volume.Decoded, Volume.WindowCoherent, Volume.DiskCoherent, Volume.MirrorCoherent, DataFits;
      var k, o := SectorIndex(fptr), fptr % 512;
      wcnt := PartialCount(fptr, |wbuff|);
      var part := wbuff[..wcnt];
      ghost var before := buf[..];
      forall i | o <= i < o + wcnt { buf[i] := part[i - o]; }
      BufferSpliced(before, buf[..], o, part);
      dirty := true;
      bytes := Splice(bytes, fptr, part);
      PartIsCoherent(old(bytes), before, part, k, o);
    }

    /** The file after part of its sector k has been put into the buffer. */
    lemma PartIsCoherent(b: seq<Byte>, bf: seq<Byte>, part: seq<Byte>, k: nat, o: nat)
      requires fs.Valid() && 2 <= fs.g.nFatent && Layout() && dirty && k < |Sects()| && dsect == Sects()[k]
      requires |b| == |bytes| && o + |part| <= 512 == |bf| && bytes == Splice(b, 512 * k + o, part) && buf[..] == Splice(bf, o, part)
      requires forall j: nat :: j < |Sects()| && Sects()[j] == dsect ==> bf == ImageSector(b, j)
      requires forall j: nat :: j < |Sects()| && Sects()[j] != dsect ==> Sects()[j] < |fs.data| && fs.data[Sects()[j]] == ImageSector(b, j)
      ensures Coherent() && Home()
    {
      hide FileSectors, ImageSector, IsChain, Splice, Volume.Shape, Volume.Decoded, Volume.WindowCoherent, Volume.DiskCoherent, Volume.MirrorCoherent, DataFits;
      ChainSectors(fs, chain);
      forall j: nat | j < |Sects()|
        ensures ImageSector(bytes, j) == if j == k then Splice(bf, o, part) else ImageSector(b, j)
        ensures Sects()[j] == dsect ==> j == k
      {
        SpliceOneSector(b, k, o, part, j);
      }
    }

    /** The branch of f_write that writes the most whole sectors that the cluster still holds. */
    method WriteWhole(wbuff: seq<Byte>, sect: nat, csect: nat) returns (res: FResult, wcnt: nat)
      requires Coherent() && !dirty && OnBoundary(fptr) && |wbuff| >= 512
      requires InCluster(SectorIndex(fptr)) && csect == SectorIndex(fptr) - ci * fs.g.csize
      requires chain != [] && sect == Clust2Sect(fs.g, currClust) + csect
      modifies this`dirty, this`bytes, this`error, buf
      modifies fs`disk, fs`faults, fs`errors, fs`data
      ensures fs.Valid() && (res == Ok ==> error == old(error)) && (res != Ok ==> error && res == DiskErr && fs.errors > old(fs.errors))
      ensures 0 < wcnt <= |wbuff| && (wcnt > 0 ==> OnBoundary(fptr + wcnt)) && fptr + wcnt <= |old(bytes)|
      ensures res == Ok ==> Coherent() && InCluster(SectorIndex(fptr + wcnt - 1))
      ensures res == Ok ==> bytes == Splice(old(bytes), fptr, wbuff[..wcnt])
      ensures res == Ok ==> OnlyChanged(old(fs.data), fs.data, Sects()) && !dirty
      ensures fs.Tried()
    {
      hide FileSectors, ImageSector, IsChain, Splice, OnlyChanged, Buffered, StoredHere, StoredElsewhere, RunAt, Clust2Sect,
        Volume.Shape, Volume.Decoded, Volume.WindowCoherent, Volume.DiskCoherent, Volume.MirrorCoherent, DataFits;
      var cc := |wbuff| / 512;
      if csect + cc > fs.g.csize {
        cc := fs.g.csize - csect;
      }
      ClusterRun(SectorIndex(fptr), cc);
      wcnt := 512 * cc;
      res := WriteDirect(wbuff[..wcnt], sect, cc, SectorIndex(fptr));
    }

    /** The head of the loop: steps to the cluster, flushes the buffer, and finds the sector. */
    method ReadyForWrite() returns (res: FResult, full: bool, sect: nat, csect: nat, ghost astray: bool)
      requires Coherent() && Positioned() && OnBoundary(fptr)
      modifies this`orgClust, this`currClust, this`ci, this`chain, this`bytes, this`error, this`dirty
      modifies fs`disk, fs`faults, fs`winsect, fs`wflag, fs`errors, fs`mirrorLost, fs`data
      modifies fs`image, fs`fat, fs`freeClust, fs`lastClust, fs`fsiFlag, fs.win
      ensures fs.Valid() && (res == Ok ==> error == old(error)) && (res != Ok ==> error)
      ensures fs.Looked() && (astray ==> fs.errors > old(fs.errors))
      ensures res == Ok && full ==> Coherent() && chain == old(chain) && bytes == old(bytes) && NoneIsFree(fs.fat) && SpaceOf(fs) == old(SpaceOf(fs))
      ensures res == Ok && full ==> currClust == old(currClust) && ci == old(ci) && (!astray ==> fptr == |bytes|)
      ensures res == Ok && full ==> fs.data == old(fs.data) && dirty == old(dirty)
      ensures res == Ok && !full ==> Coherent() && !dirty && InCluster(SectorIndex(fptr)) && csect == SectorIndex(fptr) - ci * fs.g.csize
      ensures res == Ok && !full ==> chain != [] && sect == Clust2Sect(fs.g, currClust) + csect
      ensures res == Ok && !full ==> SectorIndex(fptr) < |Sects()| && Sects()[SectorIndex(fptr)] == sect && SamePrefix(old(bytes), bytes, fptr)
      ensures res == Ok && !full && !astray ==>
                Grown(old(SpaceOf(fs)), old(chain), SpaceOf(fs), chain) && old(bytes) <= bytes && Lean(old(chain), fptr)
      ensures res == Ok && !full && !astray && old(Home()) ==> OnlyChanged(old(fs.data), fs.data, Sects())
      ensures Explained(res, fs.errors > old(fs.errors), old(fs.fat), fs.fat)
    {
      hide HasOne, SectorIndex, OnBoundary, Positioned, InCluster, Layout, FileSectors, ImageSector, IsChain, Grown, CountIsRight, SamePrefix, NoneIsFree, OnlyChanged, Buffered, StoredHere, StoredElsewhere, RunAt, Clust2Sect, Lean,
        Volume.Shape, Volume.Decoded, Volume.WindowCoherent, Volume.DiskCoherent, Volume.MirrorCoherent, DataFits;
      sect := 0;
      ghost var s0, ch0 := SpaceOf(fs), chain;
      res, full, csect, astray := StepForWrite();
      if res != Ok || full { return; }
      if !astray {
        HomeKept(s0, ch0, SpaceOf(fs));
      }
      res, sect := FlushAndFind(csect);
    }

    /** Its second part: flushes the buffer, and finds the sector. */
    method FlushAndFind(csect: nat) returns (res: FResult, sect: nat)
      requires Coherent() && InCluster(SectorIndex(fptr)) && csect == SectorIndex(fptr) - ci * fs.g.csize
      modifies this`error, this`dirty, fs`disk, fs`faults, fs`errors, fs`data
      ensures fs.Valid() && (res == Ok ==> error == old(error)) && (res != Ok ==> error && res == DiskErr && fs.errors > old(fs.errors))
      ensures fs.Tried()
      ensures res == Ok ==> Coherent() && !dirty && chain != [] && sect == Clust2Sect(fs.g, currClust) + csect
      ensures res == Ok ==> SectorIndex(fptr) < |Sects()| && Sects()[SectorIndex(fptr)] == sect
      ensures res == Ok && old(Home()) ==> OnlyChanged(old(fs.data), fs.data, Sects())
    {
      hide FileSectors, ImageSector, IsChain, OnlyChanged, Buffered, StoredHere, StoredElsewhere, RunAt, Clust2Sect,
        Volume.Shape, Volume.Decoded, Volume.WindowCoherent, Volume.DiskCoherent, Volume.MirrorCoherent, DataFits;
      sect := 0;
      var ok := Flush();
      if !ok {
        error := true;
        return DiskErr, 0;
      }
      sect := Clust2Sect(fs.g, currClust);
      ClusterRun(SectorIndex(fptr), 1);
      if sect == 0 {
        assert false;   // FR_INT_ERR cannot happen here
      }
      sect := sect + csect;
      res := Ok;
    }

    ghost function State(): FileState
      requires 2 <= fs.g.nFatent
      reads this`chain, this`bytes, this`fptr, this`fsize, this`dsect, this`dirty, fs`fat, fs`freeClust, fs`data
    {
      FileState(SpaceOf(fs), chain, fs.data, Home(), dsect, bytes, fptr, fsize)
    }

    lemma MidSector()
      requires Coherent() && Positioned() && !OnBoundary(fptr)
      ensures Loaded(SectorIndex(fptr)) && InCluster(SectorIndex(fptr))
    {
      hide FileSectors, Volume.Shape, Volume.Decoded, Volume.WindowCoherent, Volume.DiskCoherent, Volume.MirrorCoherent, DataFits;
    }

    lemma InsideBytes()
      requires 2 <= fs.g.nFatent && Positioned()
      ensures fptr <= |bytes|
    {
    }

    lemma NowPositioned()
      requires 2 <= fs.g.nFatent && fptr <= |bytes| && fptr > 0 && InCluster(SectorIndex(fptr - 1))
      requires !OnBoundary(fptr) ==> SectorIndex(fptr) < |Sects()| && dsect == Sects()[SectorIndex(fptr)]
      ensures Positioned()
    {
    }

    /** The buffered transfer of f_write with the step of the file pointer. */
    method WritePartial(wbuff: seq<Byte>) returns (wcnt: nat)
      requires Loaded(SectorIndex(fptr)) && InCluster(SectorIndex(fptr)) && |wbuff| > 0 && fptr + |wbuff| < 0x1_0000_0000
      modifies this`dirty, this`bytes, this`fptr, buf
      ensures Coherent() && Positioned() && dirty && Home() && 0 < wcnt <= |wbuff| && fptr == old(fptr) + wcnt && fptr <= |old(bytes)|
      ensures bytes == Splice(old(bytes), old(fptr), wbuff[..wcnt])
    {
      hide SectorIndex, OnBoundary, FileSectors, ImageSector, IsChain, Splice, Layout, Buffered, StoredHere, StoredElsewhere, InCluster,
        Volume.Shape, Volume.Decoded, Volume.WindowCoherent, Volume.DiskCoherent, Volume.MirrorCoherent, DataFits, PartialCount;
      wcnt := PutPartial(wbuff);
      SameSectorAfter(fptr, wcnt);
      fptr := fptr + wcnt;
      NowPositioned();
    }

    /** One round of the loop of f_write; was tells that an earlier one went astray. */
    method WriteStep(wbuff: seq<Byte>, ghost was: bool) returns (res: FResult, full: bool, wcnt: nat, ghost astray: bool)
      requires Coherent() && Positioned() && |wbuff| > 0 && fptr + |wbuff| < 0x1_0000_0000 && (!was ==> fsize <= |bytes|)
      modifies this`orgClust, this`currClust, this`ci, this`chain, this`bytes, this`error, this`dirty, this`dsect, buf
      modifies this`fptr
      modifies fs`disk, fs`faults, fs`winsect, fs`wflag, fs`errors, fs`mirrorLost, fs`data
      modifies fs`image, fs`fat, fs`freeClust, fs`lastClust, fs`fsiFlag, fs.win
      ensures fs.Valid() && (res == Ok ==> error == old(error)) && (res != Ok ==> error)
      ensures fs.Looked() && (was ==> astray) && (astray && !was ==> fs.errors > old(fs.errors))
      ensures res == Ok ==> Coherent() && Positioned() && wcnt <= |wbuff| && (full <==> wcnt == 0)
      ensures res == Ok && full ==> NoneIsFree(fs.fat) && (!astray ==> fptr == |bytes|)
      ensures res == Ok ==> Transferred(fs.g, old(State()), State(), wbuff[..wcnt], astray)
      ensures res == Ok && !OnBoundary(fptr) ==> dirty
      ensures Explained(res, fs.errors > old(fs.errors), old(fs.fat), fs.fat)
    {
      hide HasOne, SectorIndex, OnBoundary, FileSectors, ImageSector, IsChain, Splice, Overwrite, Grown, CountIsRight, SamePrefix, NoneIsFree, OnlyChanged, Layout, Buffered, StoredHere, StoredElsewhere, InCluster, Positioned, Loaded, Lean,
        Transferred, Volume.Shape, Volume.Decoded, Volume.WindowCoherent, Volume.DiskCoherent, Volume.MirrorCoherent, DataFits;
      InsideBytes();
      GrownReflexive(SpaceOf(fs), chain);
      OnlyChangedReflexive(fs.data, Sects());
      ghost var x0 := State();
      astray := was;
      wcnt, full := 0, false;
      LeanNow();
      if OnBoundary(fptr) {
        var sect, csect;
        ghost var strayed;
        res, full, sect, csect, strayed := ReadyForWrite();
        astray := was || strayed;
        if res != Ok { return; }
        if full {
          NothingDone(x0, astray);
          return;
        }
        if |wbuff| / 512 > 0 {
          res, wcnt := DirectRound(wbuff, sect, csect, x0, astray);
        } else {
          res, wcnt := LoadedRound(wbuff, sect, x0, astray);
        }
      } else {
        MidSector();
        PrefixOfLonger(bytes, bytes, fptr);
        wcnt := PartialRound(wbuff, x0, astray);
        res := Ok;
      }
    }

    /** The rest of a round that begins a sector of which it transfers part. */
    method LoadedRound(wbuff: seq<Byte>, sect: nat, ghost x0: FileState, ghost astray: bool) returns (res: FResult, wcnt: nat)
      requires Coherent() && !dirty && OnBoundary(fptr) && 0 < |wbuff| && fptr + |wbuff| < 0x1_0000_0000
      requires InCluster(SectorIndex(fptr)) && SectorIndex(fptr) < |Sects()| && Sects()[SectorIndex(fptr)] == sect
      requires fptr == x0.fptr && fsize == x0.fsize && SamePrefix(x0.bytes, bytes, fptr)
      requires !astray ==> x0.fsize <= |x0.bytes| && x0.bytes <= bytes && Grown(x0.space, x0.chain, SpaceOf(fs), chain) && Lean(x0.chain, fptr)
      requires !astray && x0.home ==> OnlyChanged(x0.data, fs.data, Sects())
      modifies this`dirty, this`dsect, this`bytes, this`error, this`fptr, buf
      modifies fs`faults, fs`errors
      ensures fs.Valid() && (res == Ok ==> error == old(error)) && (res != Ok ==> error && res == DiskErr && fs.errors > old(fs.errors)) && fs.Tried()
      ensures res == Ok ==> Coherent() && Positioned() && dirty && 0 < wcnt <= |wbuff|
      ensures res == Ok ==> Transferred(fs.g, x0, State(), wbuff[..wcnt], astray)
    {
      hide SectorIndex, OnBoundary, FileSectors, ImageSector, IsChain, Splice, Overwrite, Grown, CountIsRight, SamePrefix, OnlyChanged, Layout, Buffered, StoredHere, StoredElsewhere, InCluster, Positioned, Loaded, Lean,
        Transferred, Volume.Shape, Volume.Decoded, Volume.WindowCoherent, Volume.DiskCoherent, Volume.MirrorCoherent, DataFits;
      wcnt := 0;
      ghost var b1 := bytes;
      BoundarySector(fptr);
      res := LoadForWrite(sect, SectorIndex(fptr));
      if res != Ok { return; }
      Refilled(x0.bytes, b1, bytes, fptr);
      wcnt := PartialRound(wbuff, x0, astray);
    }

    /** The rest of a round that transfers part of a sector. */
    method PartialRound(wbuff: seq<Byte>, ghost x0: FileState, ghost astray: bool) returns (wcnt: nat)
      requires Loaded(SectorIndex(fptr)) && InCluster(SectorIndex(fptr)) && |wbuff| > 0 && fptr + |wbuff| < 0x1_0000_0000
      requires fptr == x0.fptr && fsize == x0.fsize && SamePrefix(x0.bytes, bytes, fptr)
      requires !astray ==> x0.fsize <= |x0.bytes| <= |bytes| && (fptr < fsize ==> x0.bytes <= bytes)
      requires !astray ==> Grown(x0.space, x0.chain, SpaceOf(fs), chain) && Lean(x0.chain, fptr)
      requires !astray && x0.home ==> OnlyChanged(x0.data, fs.data, Sects())
      modifies this`dirty, this`bytes, this`fptr, buf
      ensures Coherent() && Positioned() && dirty && 0 < wcnt <= |wbuff|
      ensures Transferred(fs.g, x0, State(), wbuff[..wcnt], astray)
    {
      hide SectorIndex, OnBoundary, FileSectors, ImageSector, IsChain, Splice, Overwrite, Grown, CountIsRight, SamePrefix, OnlyChanged, Layout, Buffered, StoredHere, StoredElsewhere, InCluster, Positioned, Loaded, Lean,
        Transferred, Volume.Shape, Volume.Decoded, Volume.WindowCoherent, Volume.DiskCoherent, Volume.MirrorCoherent, DataFits;
      ghost var b1 := bytes;
      wcnt := WritePartial(wbuff);
      InsideBytes();
      RoundDone(x0, b1, wbuff[..wcnt], astray);
    }

    lemma LeanNow()
      ensures Lean(chain, fptr)
    {
    }

    /** The rest of a round that transfers whole sectors. */
    method DirectRound(wbuff: seq<Byte>, sect: nat, csect: nat, ghost x0: FileState, ghost astray: bool) returns (res: FResult, wcnt: nat)
      requires Coherent() && !dirty && OnBoundary(fptr) && |wbuff| >= 512 && fptr + |wbuff| < 0x1_0000_0000
      requires InCluster(SectorIndex(fptr)) && csect == SectorIndex(fptr) - ci * fs.g.csize
      requires chain != [] && sect == Clust2Sect(fs.g, currClust) + csect
      requires fptr == x0.fptr && fsize == x0.fsize && dsect == x0.dsect && SamePrefix(x0.bytes, bytes, fptr)
      requires !astray ==> x0.fsize <= |x0.bytes| && x0.bytes <= bytes && Grown(x0.space, x0.chain, SpaceOf(fs), chain) && Lean(x0.chain, fptr)
      requires !astray && x0.home ==> OnlyChanged(x0.data, fs.data, Sects())
      modifies this`dirty, this`bytes, this`error, this`fptr, buf
      modifies fs`disk, fs`faults, fs`errors, fs`data
      ensures fs.Valid() && (res == Ok ==> error == old(error)) && (res != Ok ==> error && res == DiskErr && fs.errors > old(fs.errors)) && fs.Tried()
      ensures res == Ok ==> Coherent() && Positioned() && OnBoundary(fptr) && 0 < wcnt <= |wbuff|
      ensures res == Ok ==> Transferred(fs.g, x0, State(), wbuff[..wcnt], astray)
    {
      hide SectorIndex, OnBoundary, FileSectors, ImageSector, IsChain, Splice, Overwrite, Grown, CountIsRight, SamePrefix, OnlyChanged, Layout, Buffered, StoredHere, StoredElsewhere, InCluster, Positioned, Lean,
        Transferred, Clust2Sect, Volume.Shape, Volume.Decoded, Volume.WindowCoherent, Volume.DiskCoherent, Volume.MirrorCoherent, DataFits;
      ghost var b1, d1 := bytes, fs.data;
      BytesFit();
      res, wcnt := WriteWhole(wbuff, sect, csect);
      if res != Ok { return; }
      fptr := fptr + wcnt;
      NowPositioned();
      ChangedAgain(x0.data, d1, !astray && x0.home);
      RoundDone(x0, b1, wbuff[..wcnt], astray);
    }

    lemma ChangedAgain(d0: seq<Sector>, d1: seq<Sector>, home: bool)
      requires 2 <= fs.g.nFatent && OnlyChanged(d1, fs.data, Sects()) && (home ==> OnlyChanged(d0, d1, Sects()))
      ensures home ==> OnlyChanged(d0, fs.data, Sects())
    {
      hide FileSectors;
    }

    lemma NothingDone(x0: FileState, astray: bool)
      requires 2 <= fs.g.nFatent && x0 == State() && fptr <= |bytes| && (!astray ==> fsize <= |bytes|)
      ensures Transferred(fs.g, x0, State(), [], astray)
    {
      hide FileSectors, CountIsRight;
      GrownReflexive(x0.space, x0.chain);
      OverwriteNothing(x0.bytes[..Upto(x0, astray)], x0.fptr);
    }

    /** What a round of f_write does that transfers the bytes d: b1 is what the bytes were once the chain reached
        far enough. */
    lemma RoundDone(x0: FileState, b1: seq<Byte>, d: seq<Byte>, astray: bool)
      requires 2 <= fs.g.nFatent && |d| > 0 && fptr == x0.fptr + |d| && fsize == x0.fsize && fptr <= |b1|
      requires SamePrefix(x0.bytes, b1, x0.fptr) && bytes == Splice(b1, x0.fptr, d)
      requires !astray ==> x0.fsize <= |x0.bytes| <= |b1| && (x0.fptr < fsize ==> x0.bytes <= b1)
      requires !astray ==> Grown(x0.space, x0.chain, SpaceOf(fs), chain) && Lean(x0.chain, x0.fptr)
      requires !astray && x0.home ==> Home() && OnlyChanged(x0.data, fs.data, Sects())
      requires !astray ==> dsect == x0.dsect || dsect in Sects()
      ensures Transferred(fs.g, x0, State(), d, astray)
    {
      hide FileSectors, Grown, CountIsRight, OnlyChanged, Overwrite, Splice;
      var n := Upto(x0, astray);
      LongerPrefix(x0.bytes, b1, n, x0.fptr);
      assert SamePrefix(x0.bytes, b1, x0.fptr) && (x0.fptr < n ==> SamePrefix(x0.bytes, b1, n));
      StepIsOverwrite(x0.bytes, b1, n, x0.fptr, d);
    }

    /** f_write: on success exactly bw bytes at the file pointer are replaced or appended; fewer than
        asked for only when the disk is full and the chain has ended, or none when the file would reach 4 GB.
        When it has gone astray past a link that it could not read, this is promised up to the file pointer. */
    method Write(buff: seq<Byte>) returns (res: FResult, bw: nat, ghost astray: bool)
      requires fs.Valid() && (!error ==> Valid())
      modifies this`orgClust, this`currClust, this`ci, this`chain, this`bytes, this`error, this`dirty, this`dsect, buf
      modifies this`fptr, this`fsize, this`written
      modifies fs`disk, fs`faults, fs`winsect, fs`wflag, fs`errors, fs`mirrorLost, fs`data
      modifies fs`image, fs`fat, fs`freeClust, fs`lastClust, fs`fsiFlag, fs.win
      ensures fs.Valid() && fs.Looked() && (astray ==> fs.errors > old(fs.errors))
      ensures old(error) ==> res == IntErr && error
      ensures (res == Denied <==> !old(error) && !canWrite) && (res == Denied ==> Valid())
      ensures res != Ok && res != Denied ==> error
      ensures old(error) || !canWrite ==> bytes == old(bytes) && fs.fat == old(fs.fat) && fs.data == old(fs.data)
      ensures res == Ok ==> Coherent() && Positioned() && !error && written && old(Valid())
      ensures res == Ok ==> bw <= |buff| && fptr == old(fptr) + bw && fptr <= |bytes| && fsize == if fptr > old(fsize) then fptr else old(fsize)
      ensures res == Ok && !astray ==> Valid() && Contents() == Overwrite(old(Contents()), old(fptr), buff[..bw])
      ensures res == Ok && astray ==> bytes[..fptr] == old(Contents())[..old(fptr)] + buff[..bw]
      ensures res == Ok && !astray && bw < |buff| ==>
                (NoneIsFree(fs.fat) && fptr == |bytes|) || (bw == 0 && old(fsize) + |buff| >= 0x1_0000_0000)
      ensures res == Ok && !astray ==> Grown(old(SpaceOf(fs)), old(chain), SpaceOf(fs), chain)
      ensures res == Ok && !astray ==> chain == old(chain) || (chain != [] && Capacity(|chain| - 1) < fptr)
      ensures res == Ok && !astray && fptr <= old(fsize) ==> chain == old(chain) && SpaceOf(fs) == old(SpaceOf(fs))
      ensures res == Ok && !astray && old(Home()) ==> Home() && OnlyChanged(old(fs.data), fs.data, Sects())
      ensures res == Ok && bw > 0 && !OnBoundary(fptr) ==> dirty
      ensures !old(error) && res != Denied ==> Explained(res, fs.errors > old(fs.errors), old(fs.fat), fs.fat)
      ensures res == Ok && !astray ==> dsect == old(dsect) || dsect in Sects()
      ensures res == Denied ==> Untouched()
      ensures old(error) || res == Denied ==> bw == 0
    {
      hide HasOne, SectorIndex, OnBoundary, FileSectors, IsChain, Overwrite, Grown, CountIsRight, NoneIsFree, OnlyChanged, Layout, Buffered, StoredHere, StoredElsewhere, InCluster, Positioned,
        Transferred, Capacity, Volume.Shape, Volume.Decoded, Volume.WindowCoherent, Volume.DiskCoherent, Volume.MirrorCoherent, DataFits;
      bw, astray := 0, false;
      if error { return IntErr, 0, false; }
      if !canWrite { return Denied, 0, false; }
      BytesFit();
      ghost var x0, n0 := State(), |bytes|;
      var full;
      res, bw, full, astray := WriteAll(buff);
      if res != Ok { return; }
      WrittenOk(x0, n0, buff[..bw], astray);
      if fptr > fsize { fsize := fptr; }
      written := true;
    }

    /** The loop of f_write. */
    method WriteAll(buff: seq<Byte>) returns (res: FResult, bw: nat, full: bool, ghost astray: bool)
      requires Valid()
      modifies this`orgClust, this`currClust, this`ci, this`chain, this`bytes, this`error, this`dirty, this`dsect, buf
      modifies this`fptr
      modifies fs`disk, fs`faults, fs`winsect, fs`wflag, fs`errors, fs`mirrorLost, fs`data
      modifies fs`image, fs`fat, fs`freeClust, fs`lastClust, fs`fsiFlag, fs.win
      ensures fs.Valid() && fs.Looked() && (astray ==> fs.errors > old(fs.errors)) && (res != Ok ==> error) && (res == Ok ==> !error)
      ensures res == Ok ==> Coherent() && Positioned() && bw <= |buff|
      ensures res == Ok ==> Transferred(fs.g, old(State()), State(), buff[..bw], astray)
      ensures res == Ok && !astray && bw < |buff| ==>
                (NoneIsFree(fs.fat) && fptr == |bytes|) || (bw == 0 && fsize + |buff| >= 0x1_0000_0000)
      ensures res == Ok && bw > 0 && !OnBoundary(fptr) ==> dirty
      ensures Explained(res, fs.errors > old(fs.errors), old(fs.fat), fs.fat)
    {
      hide HasOne, SectorIndex, OnBoundary, FileSectors, IsChain, Overwrite, Grown, CountIsRight, NoneIsFree, OnlyChanged, Layout, Buffered, StoredHere, StoredElsewhere, InCluster, Positioned,
        Transferred, Volume.Shape, Volume.Decoded, Volume.WindowCoherent, Volume.DiskCoherent, Volume.MirrorCoherent, DataFits;
      bw, full, astray := 0, false, false;
      var btw := |buff|;
      if fsize + btw >= 0x1_0000_0000 { btw := 0; }
      BytesFit();
      InsideBytes();
      ghost var x0 := State();
      NothingTransferred(fs.g, x0);
      while btw > 0
        invariant Coherent() && Positioned() && !error && fsize == x0.fsize
        invariant fptr == x0.fptr + bw && 0 <= btw && bw + btw <= |buff|
        invariant btw > 0 ==> bw + btw == |buff| && fsize + |buff| < 0x1_0000_0000
        invariant bw + btw < |buff| ==> bw == 0 && fsize + |buff| >= 0x1_0000_0000
        invariant fs.Looked() && (astray ==> fs.errors > old(fs.errors))
        invariant (HasOne(fs.fat) ==> HasOne(old(fs.fat))) && (bw > 0 && !OnBoundary(fptr) ==> dirty)
        invariant Transferred(fs.g, x0, State(), buff[..bw], astray)
        decreases btw
      {
        ghost var x1, was := State(), astray;
        Reached(x0, buff[..bw], astray);
        var wcnt;
        res, full, wcnt, astray := WriteStep(buff[bw..], was);
        if res != Ok { return; }
        TransferredTwice(fs.g, x0, x1, State(), buff[..bw], buff[bw..][..wcnt], was, astray);
        assert buff[..bw] + buff[bw..][..wcnt] == buff[..bw + wcnt];
        Reached(x0, buff[..bw + wcnt], astray);
        if full { break; }
        bw := bw + wcnt;
        btw := btw - wcnt;
      }
      res := Ok;
    }

    lemma Reached(x0: FileState, w: seq<Byte>, astray: bool)
      requires 2 <= fs.g.nFatent && Transferred(fs.g, x0, State(), w, astray)
      ensures fptr == x0.fptr + |w| && fsize == x0.fsize && (!astray ==> fsize <= |bytes|)
    {
      hide FileSectors, Grown, OnlyChanged;
    }

    /** What the loop of f_write leaves is what f_write promises. */
    lemma WrittenOk(x0: FileState, n0: nat, w: seq<Byte>, astray: bool)
      requires 2 <= fs.g.nFatent && n0 == Capacity(|x0.chain|) && x0.fptr <= x0.fsize <= n0 == |x0.bytes|
      requires Transferred(fs.g, x0, State(), w, astray)
      ensures fptr == x0.fptr + |w| && fsize == x0.fsize && fptr <= |bytes|
      ensures !astray ==> fsize <= |bytes| && bytes[..if fptr > fsize then fptr else fsize] == Overwrite(x0.bytes[..x0.fsize], x0.fptr, w)
      ensures astray ==> bytes[..fptr] == x0.bytes[..x0.fsize][..x0.fptr] + w
      ensures !astray ==> Grown(x0.space, x0.chain, SpaceOf(fs), chain) && (chain == x0.chain || (chain != [] && Capacity(|chain| - 1) < fptr))
      ensures !astray && fptr <= fsize ==> chain == x0.chain && SpaceOf(fs) == x0.space
      ensures !astray && x0.home ==> Home() && OnlyChanged(x0.data, fs.data, Sects())
      ensures !astray ==> dsect == x0.dsect || dsect in Sects()
    {
      hide FileSectors, CountIsRight, OnlyChanged;
      if !astray && fptr <= fsize {
        NotLonger(x0.chain);
      }
      assert x0.bytes[..x0.fptr] == x0.bytes[..x0.fsize][..x0.fptr];
    }

    /** A chain that has been extended no further than a position inside the old one needs has not been extended. */
    lemma NotLonger(ch0: seq<nat>)
      requires ch0 <= chain && (chain == ch0 || (chain != [] && Capacity(|chain| - 1) < Capacity(|ch0|)))
      ensures chain == ch0
    {
      if chain != ch0 {
        MulMonotone(|ch0|, |chain| - 1, fs.g.csize * 512);
      }
    }

    /** Nothing in the file object has changed. */
    twostate predicate Untouched()
      reads this
    {
      && dirty == old(dirty) && written == old(written) && error == old(error) && fptr == old(fptr) && fsize == old(fsize)
      && orgClust == old(orgClust) && currClust == old(currClust) && dsect == old(dsect)
      && chain == old(chain) && bytes == old(bytes) && ci == old(ci)
    }

    // ---------- reading ----------

    /** The head of the loop of f_read on a sector boundary: follows the chain where a cluster begins. */
    method StepForRead() returns (res: FResult, csect: nat)
      requires Coherent() && Positioned() && OnBoundary(fptr) && fptr < |bytes|
      modifies this`currClust, this`ci, this`error
      modifies fs`disk, fs`faults, fs`winsect, fs`wflag, fs`errors, fs`mirrorLost, fs.win
      ensures fs.Valid() && (res == Ok ==> error == old(error)) && (res != Ok ==> error && res == DiskErr && fs.errors > old(fs.errors))
      ensures res == Ok ==> Coherent() && InCluster(SectorIndex(fptr)) && csect == SectorIndex(fptr) - ci * fs.g.csize
      ensures fs.Looked()
    {
      hide FileSectors, ImageSector, IsChain, Buffered, StoredHere, StoredElsewhere,
        Volume.Shape, Volume.Decoded, Volume.WindowCoherent, Volume.DiskCoherent, Volume.MirrorCoherent, InCluster;
      res := Ok;
      ChainSectors(fs, chain);
      NextLink(SectorIndex(fptr));
      fs.Bounds();
      NotEmptyChain();
      csect := SectorInCluster();
      if csect == 0 {
        var clst: nat;
        if fptr == 0 {
          clst := orgClust;
        } else {
          LinkInside(ci + 1);
          clst := fs.GetFat(currClust);
        }
        if clst <= 1 {
          assert false;   // FR_INT_ERR cannot happen here
        }
        if clst == DISK_ERROR { error := true; return DiskErr, 0; }
        currClust := clst;
        ci := if fptr == 0 then 0 else ci + 1;
        StartsCluster(ci);
        WindowElsewhere();
      }
    }

    /** A sector of the file past the cluster currClust lies in a next cluster. */
    lemma NextLink(k: nat)
      requires fs.Valid() && 2 <= fs.g.nFatent && Layout() && fs.g.csize >= 1 && k < |Sects()|
      ensures chain != []
      ensures AtNextCluster(k) ==> ci + 1 < |chain| && InRange(fs.fat, currClust) && fs.fat[currClust] == chain[ci + 1]
    {
      hide FileSectors, Volume.Shape, Volume.Decoded, Volume.WindowCoherent, Volume.DiskCoherent, Volume.MirrorCoherent, DataFits;
      FileSectorsLength(fs.g, chain);
      MulLess(ci + 1, |chain|, fs.g.csize);
    }

    /** The direct transfer of f_read; a dirty buffer overrides the sector it belongs to. */
    method ReadDirect(sect: nat, cc: nat, ghost k: nat) returns (res: FResult, rbuff: seq<Byte>)
      requires Coherent() && cc >= 1 && RunAt(k, sect, cc)
      modifies this`error, fs`faults, fs`errors
      ensures fs.Valid() && (res == Ok ==> error == old(error)) && (res != Ok ==> error && res == DiskErr && fs.errors > old(fs.errors))
      ensures res == Ok ==> Coherent() && 512 * (k + cc) <= |bytes| && rbuff == bytes[512 * k..512 * (k + cc)]
      ensures fs.Tried()
    {
      hide FileSectors, ImageSector, IsChain, Splice, Gather, Volume.Shape, Volume.Decoded, Volume.WindowCoherent, Volume.DiskCoherent, Volume.MirrorCoherent, DataFits;
      RunIsData(k, sect, cc);
      var ok;
      ok, rbuff := fs.ReadRun(sect, cc);
      if !ok {
        error := true;
        return DiskErr, [];
      }
      if dirty && sect <= dsect < sect + cc {
        rbuff := Splice(rbuff, 512 * (dsect - sect), buf[..]);
      }
      RunRead(rbuff, sect, cc, k);
      res := Ok;
    }

    /** What a direct read delivers is the file's bytes. */
    lemma RunRead(rbuff: seq<Byte>, sect: nat, cc: nat, k: nat)
      requires Coherent() && RunAt(k, sect, cc) && sect + cc <= |fs.data| && InDisk(fs.data, Run(sect, cc))
      requires var b := Gather(fs.data, Run(sect, cc));
               rbuff == if dirty && sect <= dsect < sect + cc then Splice(b, 512 * (dsect - sect), buf[..]) else b
      ensures 512 * (k + cc) <= |bytes| && rbuff == bytes[512 * k..512 * (k + cc)]
    {
      hide FileSectors, ImageSector, IsChain, Splice, Gather, Volume.Shape, Volume.Decoded, Volume.WindowCoherent, Volume.DiskCoherent, Volume.MirrorCoherent, DataFits;
      ChainSectors(fs, chain);
      var b := Gather(fs.data, Run(sect, cc));
      var want := bytes[512 * k..512 * (k + cc)];
      forall j: nat | j < cc
        ensures ImageSector(rbuff, j) == ImageSector(want, j)
      {
        GatherAt(fs.data, Run(sect, cc), j);
        SliceSector(bytes, k, cc, j);
        OutsideRun(k, sect, cc, k + j);
        assert Sects()[k + j] == sect + j;
        if dirty && sect <= dsect < sect + cc {
          SpliceSectors(b, dsect - sect, buf[..], 1, j);
          WholeSector(buf[..]);
        }
      }
      SameSectors(rbuff, want, cc);
    }

    /** f_read on a sector boundary, before a partial sector: fetches the sector into the clean buffer. */
    method LoadForRead(sect: nat, ghost k: nat) returns (res: FResult)
      requires Coherent() && !dirty && k < |Sects()| && Sects()[k] == sect
      modifies this`dsect, this`error, buf
      modifies fs`faults, fs`errors
      ensures fs.Valid() && (res == Ok ==> error == old(error)) && (res != Ok ==> error && res == DiskErr && fs.errors > old(fs.errors))
      ensures res == Ok ==> Coherent() && Loaded(k)
      ensures fs.Tried()
      ensures res == Ok ==> dsect == sect
    {
      hide FileSectors, ImageSector, IsChain, Volume.Shape, Volume.Decoded, Volume.WindowCoherent, Volume.DiskCoherent, Volume.MirrorCoherent, DataFits;
      ChainSectors(fs, chain);
      RunIsData(k, sect, 1);
      if dsect != sect {
        var ok := FetchSector(sect);
        if !ok {
          error := true;
          return DiskErr;
        }
      }
      dsect := sect;
      res := Ok;
    }

    /** The branch of f_read that reads the most whole sectors that the cluster still holds. */
    method ReadWhole(btr: nat, sect: nat, csect: nat) returns (res: FResult, rbuff: seq<Byte>)
      requires Coherent() && OnBoundary(fptr) && btr >= 512
      requires InCluster(SectorIndex(fptr)) && csect == SectorIndex(fptr) - ci * fs.g.csize
      requires chain != [] && sect == Clust2Sect(fs.g, currClust) + csect
      modifies this`error, fs`faults, fs`errors
      ensures fs.Valid() && (res == Ok ==> error == old(error)) && (res != Ok ==> error && res == DiskErr && fs.errors > old(fs.errors))
      ensures res == Ok ==> Coherent() && 0 < |rbuff| <= btr && OnBoundary(fptr + |rbuff|)
      ensures res == Ok ==> InCluster(SectorIndex(fptr + |rbuff| - 1))
      ensures res == Ok ==> fptr + |rbuff| <= |bytes| && rbuff == bytes[fptr..fptr + |rbuff|]
      ensures fs.Tried()
    {
      hide FileSectors, ImageSector, IsChain, Buffered, StoredHere, StoredElsewhere, RunAt, Clust2Sect,
        Volume.Shape, Volume.Decoded, Volume.WindowCoherent, Volume.DiskCoherent, Volume.MirrorCoherent, DataFits;
      var cc := btr / 512;
      if csect + cc > fs.g.csize {
        cc := fs.g.csize - csect;
      }
      ClusterRun(SectorIndex(fptr), cc);
      res, rbuff := ReadDirect(sect, cc, SectorIndex(fptr));
    }

    /** The body of the loop of f_read on a sector boundary: whole sectors directly, or (rbuff == [])
        the buffer loaded for a partial one. */
    method ReadAtBoundary(btr: nat) returns (res: FResult, rbuff: seq<Byte>)
      requires Coherent() && Positioned() && OnBoundary(fptr) && btr > 0 && fptr < |bytes|
      modifies this`currClust, this`ci, this`error, this`dirty, this`dsect, buf
      modifies fs`disk, fs`faults, fs`winsect, fs`wflag, fs`errors, fs`mirrorLost, fs`data, fs.win
      ensures fs.Valid() && (res == Ok ==> error == old(error)) && (res != Ok ==> error && res == DiskErr && fs.errors > old(fs.errors))
      ensures res == Ok ==> Coherent() && InCluster(SectorIndex(fptr))
      ensures res == Ok && old(Home()) ==> Home() && OnlyChanged(old(fs.data), fs.data, Sects())
      ensures res == Ok && rbuff == [] ==> Loaded(SectorIndex(fptr))
      ensures res == Ok && rbuff != [] ==>
                && |rbuff| <= btr && OnBoundary(fptr + |rbuff|) && InCluster(SectorIndex(fptr + |rbuff| - 1))
                && fptr + |rbuff| <= |bytes| && rbuff == bytes[fptr..fptr + |rbuff|]
      ensures dirty ==> old(dirty)
      ensures fs.Looked()
      ensures res == Ok ==> dsect == old(dsect) || dsect in Sects()
    {
      hide FileSectors, ImageSector, IsChain, OnlyChanged, Buffered, StoredHere, StoredElsewhere, RunAt, Clust2Sect,
        Volume.Shape, Volume.Decoded, Volume.WindowCoherent, Volume.DiskCoherent, Volume.MirrorCoherent, DataFits;
      rbuff := [];
      OnlyChangedReflexive(fs.data, Sects());
      var csect;
      res, csect := StepForRead();
      if res != Ok { return; }
      var sect := Clust2Sect(fs.g, currClust);
      ClusterRun(SectorIndex(fptr), 1);
      if sect == 0 {
        assert false;   // FR_INT_ERR cannot happen here
      }
      sect := sect + csect;
      if btr / 512 > 0 {
        res, rbuff := ReadWhole(btr, sect, csect);
        return;
      }
      res := Refill(sect, SectorIndex(fptr));
    }

    /** The buffer is written back, if it is dirty, and gets another sector of the file. */
    method Refill(sect: nat, ghost k: nat) returns (res: FResult)
      requires Coherent() && k < |Sects()| && Sects()[k] == sect
      modifies this`dirty, this`dsect, this`error, buf
      modifies fs`disk, fs`faults, fs`errors, fs`data
      ensures fs.Valid() && (res == Ok ==> error == old(error)) && (res != Ok ==> error && res == DiskErr && fs.errors > old(fs.errors)) && fs.Tried()
      ensures res == Ok ==> Coherent() && Loaded(k) && dsect == sect && !dirty
      ensures res == Ok && old(Home()) ==> Home() && OnlyChanged(old(fs.data), fs.data, Sects())
      ensures dirty ==> old(dirty)
    {
      hide FileSectors, ImageSector, IsChain, OnlyChanged, Volume.Shape, Volume.Decoded, Volume.WindowCoherent, Volume.DiskCoherent, Volume.MirrorCoherent, DataFits;
      var ok := Flush();
      if !ok {
        error := true;
        return DiskErr;
      }
      res := LoadForRead(sect, k);
    }

    /** The buffered transfer of f_read with the step of the file pointer. */
    method ReadPartial(btr: nat) returns (rbuff: seq<Byte>)
      requires Loaded(SectorIndex(fptr)) && InCluster(SectorIndex(fptr)) && 0 < btr
      requires fptr + btr <= |bytes| && fptr + btr < 0x1_0000_0000
      modifies this`fptr
      ensures Positioned() && 0 < |rbuff| <= btr && fptr == old(fptr) + |rbuff|
      ensures fptr <= |bytes| && rbuff == bytes[old(fptr)..fptr]
    {
      hide FileSectors, ImageSector, IsChain, Layout, Buffered, StoredElsewhere, InCluster,
        Volume.Shape, Volume.Decoded, Volume.WindowCoherent, Volume.DiskCoherent, Volume.MirrorCoherent, DataFits;
      var rcnt := PartialCount(fptr, btr);
      BufferedBytes(SectorIndex(fptr), fptr % 512, rcnt);
      rbuff := buf[fptr % 512..fptr % 512 + rcnt];
      SameSectorAfter(fptr, rcnt);
      fptr := fptr + rcnt;
      NowPositioned();
    }

    /** One round of the loop of f_read. */
    method ReadStep(btr: nat) returns (res: FResult, rbuff: seq<Byte>)
      requires Coherent() && Positioned() && 0 < btr && fptr + btr <= |bytes| && fptr + btr < 0x1_0000_0000
      modifies this`currClust, this`ci, this`error, this`dirty, this`dsect, this`fptr, buf
      modifies fs`disk, fs`faults, fs`winsect, fs`wflag, fs`errors, fs`mirrorLost, fs`data, fs.win
      ensures fs.Valid() && (res == Ok ==> error == old(error)) && (res != Ok ==> error && res == DiskErr && fs.errors > old(fs.errors))
      ensures res == Ok ==> Coherent() && Positioned()
      ensures res == Ok && old(Home()) ==> Home() && OnlyChanged(old(fs.data), fs.data, Sects())
      ensures res == Ok ==> 0 < |rbuff| <= btr && fptr == old(fptr) + |rbuff|
      ensures res == Ok ==> fptr <= |bytes| && rbuff == bytes[old(fptr)..fptr]
      ensures dirty ==> old(dirty)
      ensures fs.Looked()
      ensures res == Ok ==> dsect == old(dsect) || dsect in Sects()
    {
      hide SectorIndex, OnBoundary, FileSectors, ImageSector, IsChain, OnlyChanged, Layout, Buffered, StoredHere, StoredElsewhere, InCluster,
        Volume.Shape, Volume.Decoded, Volume.WindowCoherent, Volume.DiskCoherent, Volume.MirrorCoherent, DataFits;
      OnlyChangedReflexive(fs.data, Sects());
      if OnBoundary(fptr) {
        res, rbuff := ReadAtBoundary(btr);
        if res != Ok { return; }
        if rbuff != [] {
          fptr := fptr + |rbuff|;
          NowPositioned();
          return;
        }
      } else {
        MidSector();
      }
      rbuff := ReadPartial(btr);
      res := Ok;
    }

    /** Part of a loaded sector. */
    lemma BufferedBytes(k: nat, o: nat, n: nat)
      requires Loaded(k) && o + n <= 512
      ensures 512 * k + o + n <= |bytes| && buf.Length == 512
      ensures buf[o..o + n] == bytes[512 * k + o..512 * k + o + n]
    {
      hide FileSectors, Volume.Shape, Volume.Decoded, Volume.WindowCoherent, Volume.DiskCoherent, Volume.MirrorCoherent, DataFits, IsChain;
      assert buf[..] == ImageSector(bytes, k);
      assert buf[o..o + n] == buf[..][o..o + n];
      SubSlice(bytes, 512 * k, 512, o, n);
    }

    /** f_read: on success exactly the bytes at the file pointer, as many as asked for or as there are. */
    method Read(btr0: nat) returns (res: FResult, rbuff: seq<Byte>)
      requires fs.Valid() && (!error ==> Valid())
      modifies this`currClust, this`ci, this`error, this`dirty, this`dsect, this`fptr, buf
      modifies fs`disk, fs`faults, fs`winsect, fs`wflag, fs`errors, fs`mirrorLost, fs`data, fs.win
      ensures fs.Valid() && fs.Looked()
      ensures old(error) ==> res == IntErr && error
      ensures (res == Denied <==> !old(error) && !canRead) && (res == Denied ==> Valid())
      ensures res != Ok && res != Denied ==> error && (!old(error) ==> res == DiskErr && fs.errors > old(fs.errors))
      ensures res == Ok ==> Valid() && fptr == old(fptr) + |rbuff|
      ensures res == Ok ==> |rbuff| == if btr0 <= fsize - old(fptr) then btr0 else fsize - old(fptr)
      ensures res == Ok ==> rbuff == Contents()[old(fptr)..fptr]
      ensures res == Ok && old(Home()) ==> Home() && OnlyChanged(old(fs.data), fs.data, Sects())
      ensures dirty ==> old(dirty)
      ensures res == Ok ==> dsect == old(dsect) || dsect in Sects()
      ensures res == Denied ==> Untouched()
    {
      hide SectorIndex, OnBoundary, FileSectors, IsChain, OnlyChanged, Layout, Buffered, StoredHere, StoredElsewhere, InCluster, Positioned,
        Volume.Shape, Volume.Decoded, Volume.WindowCoherent, Volume.DiskCoherent, Volume.MirrorCoherent, DataFits;
      rbuff := [];
      if error { return IntErr, []; }
      if !canRead { return Denied, []; }
      var btr := btr0;
      if btr > fsize - fptr { btr := fsize - fptr; }
      OnlyChangedReflexive(fs.data, Sects());
      while btr > 0
        invariant fs.Looked() && Coherent() && Positioned() && !error && (dirty ==> old(dirty))
        invariant old(fptr) <= fptr == old(fptr) + |rbuff| && 0 <= btr && fptr + btr <= fsize
        invariant |rbuff| + btr == if btr0 <= fsize - old(fptr) then btr0 else fsize - old(fptr)
        invariant rbuff == bytes[old(fptr)..fptr] && (dsect == old(dsect) || dsect in Sects())
        invariant old(Home()) ==> Home() && OnlyChanged(old(fs.data), fs.data, Sects())
        decreases btr
      {
        ghost var d1 := fs.data;
        var got;
        res, got := ReadStep(btr);
        if res != Ok { return; }
        if old(Home()) {
          OnlyChangedTransitive(old(fs.data), d1, fs.data, Sects());
        }
        rbuff := rbuff + got;
        btr := btr - |got|;
      }
      SliceOfPrefix(bytes, fsize, old(fptr), fptr);
      res := Ok;
    }

    // ---------- seeking ----------

    /** The file pointer stands at the start of the cluster currClust. */
    ghost predicate AtClusterStart()
      reads this`chain, this`currClust, this`ci, this`fptr
    {
      ci < |chain| && currClust == chain[ci] && fptr == ci * (fs.g.csize * 512)
    }

    /** The beginning of a seek to ofs > 0: from the current cluster when it is not past the target, else
        from the first one, which is created for an empty file. clst == 0 when the disk is full. */
    method SeekStart(ofs: Dword) returns (res: FResult, clst: nat, rest: nat)
      requires Coherent() && Positioned() && ofs > 0 && (!canWrite ==> ofs <= |bytes|)
      modifies this`fptr, this`currClust, this`ci, this`orgClust, this`chain, this`bytes, this`error
      modifies fs`disk, fs`faults, fs`winsect, fs`wflag, fs`errors, fs`mirrorLost
      modifies fs`image, fs`fat, fs`freeClust, fs`lastClust, fs`fsiFlag, fs.win
      ensures fs.Valid() && (res == Ok ==> error == old(error)) && (res != Ok ==> error) && fs.Looked()
      ensures res == Ok ==> Coherent() && Grown(old(SpaceOf(fs)), old(chain), SpaceOf(fs), chain) && old(bytes) <= bytes
      ensures res == Ok && clst == 0 ==> fptr == 0 && bytes == [] && chain == old(chain) == [] && NoneIsFree(fs.fat) && canWrite
      ensures res == Ok && clst != 0 ==> AtClusterStart() && clst == currClust && rest > 0 && fptr + rest == ofs
      ensures res == Ok && clst != 0 ==> Lean(old(chain), fptr)
      ensures Explained(res, fs.errors > old(fs.errors), old(fs.fat), fs.fat)
    {
      hide HasOne, FileSectors, ImageSector, IsChain, Grown, CountIsRight, Buffered, StoredHere, StoredElsewhere, SectorIndex, OnBoundary, Volume.Shape, Volume.Decoded, Volume.WindowCoherent, Volume.DiskCoherent, Volume.MirrorCoherent;
      ChainSectors(fs, chain);
      EmptyFile();
      GrownReflexive(SpaceOf(fs), chain);
      res := Ok;
      var ifptr: nat := fptr;
      rest := ofs;
      fptr := 0;
      var bcs := fs.g.csize * 512;
      if ifptr > 0 {
        ClusterOfByte(ifptr - 1, ci, fs.g.csize);
        DivideExact(ofs - 1, bcs);
      }
      if ifptr > 0 && (ofs - 1) / bcs >= (ifptr - 1) / bcs {
        MulMonotone(ci, (ofs - 1) / bcs, bcs);
        fptr := (ifptr - 1) / bcs * bcs;
        rest := rest - fptr;
        clst := currClust;
        FirstInRange(ci);
      } else {
        res, clst := SeekFirst();
      }
    }

    /** A seek that starts from the first cluster. */
    method SeekFirst() returns (res: FResult, clst: nat)
      requires Coherent() && fptr == 0 && (!canWrite ==> chain != [])
      modifies this`currClust, this`ci, this`orgClust, this`chain, this`bytes, this`error
      modifies fs`disk, fs`faults, fs`winsect, fs`wflag, fs`errors, fs`mirrorLost
      modifies fs`image, fs`fat, fs`freeClust, fs`lastClust, fs`fsiFlag, fs.win
      ensures fs.Valid() && (res == Ok ==> error == old(error)) && (res != Ok ==> error) && fs.Looked()
      ensures res == Ok ==> Coherent() && Grown(old(SpaceOf(fs)), old(chain), SpaceOf(fs), chain) && old(bytes) <= bytes
      ensures res == Ok && clst == 0 ==> bytes == [] && chain == old(chain) == [] && NoneIsFree(fs.fat) && canWrite
      ensures res == Ok && clst != 0 ==> AtClusterStart() && clst == currClust && Lean(old(chain), 0)
      ensures Explained(res, fs.errors > old(fs.errors), old(fs.fat), fs.fat)
    {
      hide HasOne, FileSectors, ImageSector, IsChain, Created, Grown, CountIsRight, Buffered, StoredHere, StoredElsewhere, Volume.Shape, Volume.Decoded, Volume.WindowCoherent, Volume.DiskCoherent, Volume.MirrorCoherent, DataFits, Truncate;
      fs.Bounds();
      GrownReflexive(SpaceOf(fs), chain);
      NotEmptyChain();
      EmptyFile();
      AllCapacity();
      res := Ok;
      clst := orgClust;
      if clst == 0 {
        ghost var strayed;
        clst, strayed := CreateForEmpty();
        if clst == 1 { error := true; return IntErr, 1; }
        if clst == DISK_ERROR { error := true; return DiskErr, clst; }
      }
      currClust := clst;
      ci := 0;
    }

    lemma LinkInside(i: nat)
      requires Coherent() && i < |chain|
      ensures 2 <= chain[i] < fs.g.nFatent < DISK_ERROR
    {
      hide FileSectors, ImageSector, Buffered, StoredHere, StoredElsewhere, Volume.Shape, Volume.Decoded, Volume.WindowCoherent, Volume.DiskCoherent, Volume.MirrorCoherent, DataFits;
      fs.Bounds();
      FirstInRange(i);
    }

    lemma FirstInRange(i: nat)
      requires 2 <= fs.g.nFatent && Layout() && i < |chain|
      ensures 2 <= chain[i] < |fs.fat|
    {
      assert InRange(fs.fat, chain[i]);
    }

    lemma EmptyFile()
      requires 2 <= fs.g.nFatent && |bytes| == 512 * |Sects()|
      ensures chain == [] ==> bytes == []
    {
    }

    /** A byte past the cluster currClust lies in a next cluster. */
    lemma NextInside(rest: nat)
      requires fs.Valid() && 2 <= fs.g.nFatent && Layout() && fs.g.csize >= 1 && AtClusterStart()
      requires fs.g.csize * 512 < rest && fptr + rest <= |bytes|
      ensures ci + 1 < |chain| && InRange(fs.fat, currClust) && fs.fat[currClust] == chain[ci + 1]
    {
      hide FileSectors, Volume.Shape, Volume.Decoded, Volume.WindowCoherent, Volume.DiskCoherent, Volume.MirrorCoherent, DataFits;
      FileSectorsLength(fs.g, chain);
      ByteOfCluster(ci, fs.g.csize, 0);
      assert 512 * (|chain| * fs.g.csize) == |chain| * (fs.g.csize * 512);
      MulLess(ci + 1, |chain|, fs.g.csize * 512);
    }

    /** The cluster following loop of a seek; in write mode it stretches the chain, and full tells that
        the disk has no cluster left. */
    method SeekFollow(rest0: nat) returns (res: FResult, rest: nat, full: bool, ghost astray: bool)
      requires Coherent() && AtClusterStart() && rest0 > 0 && fptr + rest0 < 0x1_0000_0000
      requires !canWrite ==> fptr + rest0 <= |bytes|
      modifies this`fptr, this`currClust, this`ci, this`chain, this`bytes, this`error
      modifies fs`disk, fs`faults, fs`winsect, fs`wflag, fs`errors, fs`mirrorLost
      modifies fs`image, fs`fat, fs`freeClust, fs`lastClust, fs`fsiFlag, fs.win
      ensures fs.Valid() && (res == Ok ==> error == old(error)) && (res != Ok ==> error)
      ensures fs.Looked() && (astray ==> fs.errors > old(fs.errors))
      ensures res == Ok ==> Coherent() && AtClusterStart() && 0 < rest <= fs.g.csize * 512
      ensures res == Ok && !astray ==> Grown(old(SpaceOf(fs)), old(chain), SpaceOf(fs), chain) && old(bytes) <= bytes && Lean(old(chain), fptr)
      ensures fptr >= old(fptr) && (res == Ok && !full ==> fptr + rest == old(fptr) + rest0)
      ensures res == Ok && full ==> canWrite && NoneIsFree(fs.fat) && fptr + rest < old(fptr) + rest0
      ensures res == Ok && full ==> rest == fs.g.csize * 512 && (!astray ==> fptr + rest == |bytes|)
      ensures Explained(res, fs.errors > old(fs.errors), old(fs.fat), fs.fat)
    {
      hide HasOne, FileSectors, ImageSector, IsChain, Grown, CountIsRight, NoneIsFree, Layout, Buffered, StoredHere, StoredElsewhere, AtClusterStart, Volume.Shape, Volume.Decoded, Volume.WindowCoherent, Volume.DiskCoherent, Volume.MirrorCoherent, DataFits;
      SomeSectors();
      GrownReflexive(SpaceOf(fs), chain);
      LeanNow();
      var bcs := fs.g.csize * 512;
      rest, full, astray := rest0, false, false;
      while rest > bcs
        invariant Coherent() && AtClusterStart() && error == old(error) && !full
        invariant rest > 0 && fptr + rest == old(fptr) + rest0 && fptr >= old(fptr)
        invariant !canWrite ==> fptr + rest <= |bytes|
        invariant (HasOne(fs.fat) ==> HasOne(old(fs.fat))) && fs.Looked() && (astray ==> fs.errors > old(fs.errors))
        invariant !astray ==> Grown(old(SpaceOf(fs)), old(chain), SpaceOf(fs), chain) && old(bytes) <= bytes && Lean(old(chain), fptr)
        decreases rest
      {
        ghost var s1, ch1, p1, strayed := SpaceOf(fs), chain, fptr, false;
        res, full, strayed := FollowOnce(rest);
        astray := astray || strayed;
        if res != Ok { return; }
        if !astray {
          GrownTransitive(old(SpaceOf(fs)), old(chain), s1, ch1, SpaceOf(fs), chain);
          LeanStill(old(chain), ch1, p1);
        }
        if full {
          rest := bcs;
          break;
        }
        rest := rest - bcs;
      }
      res := Ok;
    }

    lemma SomeSectors()
      requires Coherent()
      ensures fs.g.csize >= 1
    {
      hide FileSectors, IsChain, Buffered, StoredHere, StoredElsewhere, Volume.Shape, Volume.Decoded, Volume.WindowCoherent, Volume.DiskCoherent, Volume.MirrorCoherent;
    }

    lemma LeanStill(ch0: seq<nat>, ch1: seq<nat>, p1: nat)
      requires p1 <= fptr && (ch1 == ch0 || (ch1 != [] && Capacity(|ch1| - 1) <= p1)) && Lean(ch1, fptr)
      ensures Lean(ch0, fptr)
    {
    }

    /** One round of that loop: the next cluster, created if the file may be written. */
    method FollowOnce(rest: nat) returns (res: FResult, full: bool, ghost astray: bool)
      requires Coherent() && AtClusterStart() && rest > fs.g.csize * 512 && fptr + rest < 0x1_0000_0000
      requires !canWrite ==> fptr + rest <= |bytes|
      modifies this`fptr, this`currClust, this`ci, this`chain, this`bytes, this`error
      modifies fs`disk, fs`faults, fs`winsect, fs`wflag, fs`errors, fs`mirrorLost
      modifies fs`image, fs`fat, fs`freeClust, fs`lastClust, fs`fsiFlag, fs.win
      ensures fs.Valid() && (res == Ok ==> error == old(error)) && (res != Ok ==> error) && fptr >= old(fptr)
      ensures fs.Looked() && (astray ==> fs.errors > old(fs.errors))
      ensures res == Ok ==> Coherent() && AtClusterStart() && fptr == if full then old(fptr) else old(fptr) + fs.g.csize * 512
      ensures res == Ok && !canWrite ==> !full && bytes == old(bytes)
      ensures res == Ok && !astray ==> Grown(old(SpaceOf(fs)), old(chain), SpaceOf(fs), chain) && old(bytes) <= bytes && Lean(old(chain), fptr)
      ensures res == Ok && full ==> canWrite && NoneIsFree(fs.fat) && (!astray ==> fptr + fs.g.csize * 512 == |bytes|)
      ensures Explained(res, fs.errors > old(fs.errors), old(fs.fat), fs.fat)
    {
      hide HasOne, FileSectors, ImageSector, IsChain, Grown, CountIsRight, SamePrefix, NoneIsFree, Buffered, StoredHere, StoredElsewhere, Volume.Shape, Volume.Decoded, Volume.WindowCoherent, Volume.DiskCoherent, Volume.MirrorCoherent;
      ChainSectors(fs, chain);
      GrownReflexive(SpaceOf(fs), chain);
      ByteOfCluster(ci, fs.g.csize, 0);
      res, full, astray := Ok, false, false;
      var clst: nat;
      if canWrite {
        clst, astray := NextCluster();
        if clst == 0 {
          AllCapacity();
          return Ok, true, astray;
        }
        if 1 < clst != DISK_ERROR {
          LinkInside(ci + 1);
        }
      } else {
        clst := FollowLink(rest);
        GrownReflexive(SpaceOf(fs), chain);
      }
      if clst == DISK_ERROR { error := true; return DiskErr, false, astray; }
      if clst <= 1 || clst >= fs.g.nFatent { error := true; return IntErr, false, astray; }
      currClust := clst;
      ci := ci + 1;
      fptr := fptr + fs.g.csize * 512;
    }

    /** The next cluster of a file that may not be written. */
    method FollowLink(rest: nat) returns (clst: nat)
      requires Coherent() && AtClusterStart() && rest > fs.g.csize * 512 && fptr + rest <= |bytes|
      modifies fs`disk, fs`faults, fs`winsect, fs`wflag, fs`errors, fs`mirrorLost, fs.win
      ensures fs.Valid() && fs.Looked() && Coherent() && ci + 1 < |chain|
      ensures if clst == DISK_ERROR then fs.errors > old(fs.errors) else clst == chain[ci + 1] && 2 <= clst < fs.g.nFatent
    {
      hide FileSectors, ImageSector, IsChain, Buffered, StoredHere, StoredElsewhere, Volume.Shape, Volume.Decoded, Volume.WindowCoherent, Volume.DiskCoherent, Volume.MirrorCoherent, DataFits;
      SomeSectors();
      ChainSectors(fs, chain);
      NextInside(rest);
      LinkInside(ci + 1);
      clst := fs.GetFat(currClust);
      WindowElsewhere();
    }

    /** The end of a seek: the buffer follows the file pointer into the middle of a sector. */
    method SeekBuffer(nsect: nat) returns (res: FResult)
      requires Coherent() && fptr > 0 && fptr <= |bytes| && InCluster(SectorIndex(fptr - 1))
      requires !OnBoundary(fptr) ==> SectorIndex(fptr) < |Sects()| && nsect == Sects()[SectorIndex(fptr)]
      modifies this`dirty, this`dsect, this`error, buf
      modifies fs`disk, fs`faults, fs`errors, fs`data
      ensures fs.Valid() && (res == Ok ==> error == old(error)) && (res != Ok ==> error && res == DiskErr && fs.errors > old(fs.errors)) && fs.Tried()
      ensures res == Ok ==> Coherent() && Positioned()
      ensures res == Ok && old(Home()) ==> Home() && OnlyChanged(old(fs.data), fs.data, Sects())
      ensures dirty ==> old(dirty)
      ensures res == Ok && OnBoundary(fptr) ==> dirty == old(dirty) && dsect == old(dsect) && buf[..] == old(buf[..])
      ensures res == Ok ==> dsect == old(dsect) || dsect in Sects()
    {
      hide FileSectors, ImageSector, IsChain, OnlyChanged, SectorIndex, OnBoundary, InCluster, Volume.Shape, Volume.Decoded, Volume.WindowCoherent,
        Volume.DiskCoherent, Volume.MirrorCoherent;
      OnlyChangedReflexive(fs.data, Sects());
      if !OnBoundary(fptr) && nsect != dsect {
        res := Refill(nsect, SectorIndex(fptr));
        if res != Ok { return; }
      }
      NowPositioned();
      res := Ok;
    }

    /** The file pointer moved from the start of the cluster to a byte count inside it, and the sector that
        the buffer has to show then. */
    method SeekInside(rest: nat) returns (res: FResult, nsect: nat)
      requires Coherent() && AtClusterStart() && 0 < rest <= fs.g.csize * 512 && fptr + rest < 0x1_0000_0000
      modifies this`fptr, this`error
      ensures fs.Valid() && res == Ok && error == old(error)
      ensures res == Ok ==> Coherent() && fptr == old(fptr) + rest && 0 < fptr <= |bytes| && InCluster(SectorIndex(fptr - 1))
      ensures res == Ok && !OnBoundary(fptr) ==> SectorIndex(fptr) < |Sects()| && nsect == Sects()[SectorIndex(fptr)]
    {
      hide FileSectors, ImageSector, IsChain, Buffered, StoredHere, StoredElsewhere, SectorIndex, OnBoundary, Clust2Sect, Volume.Shape, Volume.Decoded, Volume.WindowCoherent,
        Volume.DiskCoherent, Volume.MirrorCoherent;
      ChainSectors(fs, chain);
      nsect := 0;
      ByteOfCluster(ci, fs.g.csize, rest - 1);
      CapacityAt(rest);
      var clst := currClust;
      fptr := fptr + rest;
      if !OnBoundary(rest) {
        RestBelow(rest, fs.g.csize);
        ByteOfCluster(ci, fs.g.csize, rest);
        ClusterRun(SectorIndex(fptr), 1);
        nsect := Clust2Sect(fs.g, clst);
        if nsect == 0 {
          assert false;   // FR_INT_ERR cannot happen here
        }
        nsect := nsect + SectorIndex(rest);
      } else {
        RestOnBoundary(ci, fs.g.csize, rest);
      }
      res := Ok;
    }

    lemma CapacityAt(rest: nat)
      requires 2 <= fs.g.nFatent && AtClusterStart() && rest <= fs.g.csize * 512 && |bytes| == 512 * |Sects()|
      ensures fptr + rest <= |bytes|
    {
      hide FileSectors;
      FileSectorsLength(fs.g, chain);
      MulMonotone(ci + 1, |chain|, fs.g.csize * 512);
      assert (ci + 1) * (fs.g.csize * 512) == ci * (fs.g.csize * 512) + fs.g.csize * 512;
      assert 512 * (|chain| * fs.g.csize) == |chain| * (fs.g.csize * 512);
    }

    /** Where a seek inside a file leaves the file object: nothing has changed but the position. */
    ghost predicate Sought(ch: seq<nat>, b: seq<Byte>, size: nat, ofs: nat)
      reads this, fs, fs.win, buf
    {
      Valid() && chain == ch && bytes == b && fsize == size && fptr == ofs
    }

    /** f_lseek: moves the file pointer to ofs, cut to the file size unless the file may be written; then the
        file is stretched, by unspecified bytes, as far as the disk has clusters. Inside the file nothing but
        the position changes. */
    method Seek(ofs0: Dword) returns (res: FResult, ghost astray: bool)
      requires fs.Valid() && (!error ==> Valid())
      modifies this`orgClust, this`currClust, this`ci, this`chain, this`bytes, this`error, this`dirty, this`dsect, buf
      modifies this`fptr, this`fsize, this`written
      modifies fs`disk, fs`faults, fs`winsect, fs`wflag, fs`errors, fs`mirrorLost, fs`data
      modifies fs`image, fs`fat, fs`freeClust, fs`lastClust, fs`fsiFlag, fs.win
      ensures fs.Valid() && fs.Looked() && (astray ==> fs.errors > old(fs.errors) && ofs0 > 0)
      ensures old(error) ==> res == IntErr
      ensures res != Ok ==> error
      ensures res == Ok ==> Coherent() && Positioned() && !error && old(Valid()) && fptr <= fsize && fptr <= |bytes|
      ensures res == Ok ==> fsize == if fptr > old(fsize) then fptr else old(fsize)
      ensures res == Ok && !astray ==> Valid() && old(Contents()) <= Contents()
      ensures res == Ok && !astray ==> var target := if ofs0 > old(fsize) && !canWrite then old(fsize) else ofs0;
                                       fptr == target || (fptr < target && canWrite && NoneIsFree(fs.fat) && fptr == |bytes|)
      ensures res == Ok && !astray && ofs0 <= old(fsize) ==>
                Sought(old(chain), old(bytes), old(fsize), ofs0) && SpaceOf(fs) == old(SpaceOf(fs))
      ensures res == Ok && !astray ==> Grown(old(SpaceOf(fs)), old(chain), SpaceOf(fs), chain)
      ensures res == Ok && !astray ==> chain == old(chain) || (chain != [] && Capacity(|chain| - 1) < fptr)
      ensures res == Ok && !astray && old(Home()) ==> Home() && OnlyChanged(old(fs.data), fs.data, Sects())
      ensures (dirty ==> old(dirty)) && (old(written) ==> written)
      ensures res == Ok && OnBoundary(fptr) ==> dirty == old(dirty) && dsect == old(dsect) && buf[..] == old(buf[..])
      ensures !old(error) ==> Explained(res, fs.errors > old(fs.errors), old(fs.fat), fs.fat)
      ensures res == Ok && !astray ==> dsect == old(dsect) || dsect in Sects()
      ensures res == Ok ==> written == (old(written) || fsize != old(fsize))
    {
      hide HasOne, Positioned, FileSectors, IsChain, Grown, CountIsRight, NoneIsFree, OnlyChanged, Layout, Buffered, StoredHere, StoredElsewhere, InCluster, SectorIndex, OnBoundary, AtClusterStart,
        Volume.Shape, Volume.Decoded, Volume.WindowCoherent, Volume.DiskCoherent, Volume.MirrorCoherent, DataFits;
      astray := false;
      if error { return IntErr, false; }
      var ofs := ofs0;
      if ofs > fsize && !canWrite { ofs := fsize; }
      res, astray := SeekTo(ofs);
      if res != Ok { return; }
      InsideBytes();
      if !astray {
        SoughtInside(old(SpaceOf(fs)), old(chain), old(bytes), old(fsize), ofs);
      }
      if fptr > fsize {
        fsize := fptr;
        written := true;
      }
      res := Ok;
    }

    /** The part of f_lseek that moves the file pointer. */
    method SeekTo(ofs: Dword) returns (res: FResult, ghost astray: bool)
      requires Coherent() && Positioned() && (!canWrite ==> ofs <= |bytes|)
      modifies this`orgClust, this`currClust, this`ci, this`chain, this`bytes, this`error, this`dirty, this`dsect, buf
      modifies this`fptr
      modifies fs`disk, fs`faults, fs`winsect, fs`wflag, fs`errors, fs`mirrorLost, fs`data
      modifies fs`image, fs`fat, fs`freeClust, fs`lastClust, fs`fsiFlag, fs.win
      ensures fs.Valid() && (res == Ok ==> error == old(error)) && (res != Ok ==> error)
      ensures fs.Looked() && (astray ==> fs.errors > old(fs.errors) && ofs > 0)
      ensures res == Ok ==> Coherent() && Positioned() && fptr <= ofs && |old(bytes)| == old(Capacity(|chain|)) && |bytes| == 512 * |Sects()|
      ensures res == Ok && !astray ==> old(bytes) <= bytes && (chain == old(chain) || (chain != [] && Capacity(|chain| - 1) < fptr))
      ensures res == Ok && !astray ==> fptr == ofs || (fptr < ofs && NoneIsFree(fs.fat) && canWrite && fptr == |bytes|)
      ensures res == Ok && !astray ==> Grown(old(SpaceOf(fs)), old(chain), SpaceOf(fs), chain)
      ensures res == Ok && !astray && old(Home()) ==> Home() && OnlyChanged(old(fs.data), fs.data, Sects())
      ensures dirty ==> old(dirty)
      ensures res == Ok && OnBoundary(fptr) ==> dirty == old(dirty) && dsect == old(dsect) && buf[..] == old(buf[..])
      ensures Explained(res, fs.errors > old(fs.errors), old(fs.fat), fs.fat)
      ensures res == Ok && !astray ==> dsect == old(dsect) || dsect in Sects()
    {
      hide HasOne, Positioned, Layout, FileSectors, ImageSector, IsChain, Grown, CountIsRight, NoneIsFree, OnlyChanged, Buffered, StoredHere, StoredElsewhere, InCluster, SectorIndex, OnBoundary, AtClusterStart,
        Volume.Shape, Volume.Decoded, Volume.WindowCoherent, Volume.DiskCoherent, Volume.MirrorCoherent, DataFits;
      if ofs > 0 {
        res, astray := SeekForward(ofs);
      } else {
        GrownReflexive(SpaceOf(fs), chain);
        OnlyChangedReflexive(fs.data, Sects());
        BytesFit();
        fptr := 0;
        AtTop();
        res, astray := Ok, false;
      }
    }

    lemma AtTop()
      requires 2 <= fs.g.nFatent && fptr == 0
      ensures Positioned() && OnBoundary(fptr)
    {
      hide FileSectors;
      SectorZero();
    }

    /** A seek inside the file has reached its target without growing the chain. */
    lemma SoughtInside(s0: Space, ch0: seq<nat>, b0: seq<Byte>, size: nat, ofs: nat)
      requires 2 <= fs.g.nFatent && |bytes| == 512 * |Sects()| && |b0| == Capacity(|ch0|) && b0 <= bytes && size <= |b0|
      requires Grown(s0, ch0, SpaceOf(fs), chain) && (chain == ch0 || (chain != [] && Capacity(|chain| - 1) < fptr))
      requires fptr == ofs || (fptr < ofs && fptr == |bytes|)
      ensures ofs <= size ==> fptr == ofs && chain == ch0 && bytes == b0 && SpaceOf(fs) == s0
    {
      hide FileSectors, CountIsRight;
      if ofs <= size {
        NotLonger(ch0);
        AllCapacity();
      }
    }

    /** The part of f_lseek for a target other than 0. */
    method SeekForward(ofs: Dword) returns (res: FResult, ghost astray: bool)
      requires Coherent() && Positioned() && ofs > 0 && (!canWrite ==> ofs <= |bytes|)
      modifies this`orgClust, this`currClust, this`ci, this`chain, this`bytes, this`error, this`dirty, this`dsect, buf
      modifies this`fptr
      modifies fs`disk, fs`faults, fs`winsect, fs`wflag, fs`errors, fs`mirrorLost, fs`data
      modifies fs`image, fs`fat, fs`freeClust, fs`lastClust, fs`fsiFlag, fs.win
      ensures fs.Valid() && (res == Ok ==> error == old(error)) && (res != Ok ==> error)
      ensures fs.Looked() && (astray ==> fs.errors > old(fs.errors))
      ensures res == Ok ==> Coherent() && Positioned() && fptr <= ofs && |old(bytes)| == old(Capacity(|chain|)) && |bytes| == 512 * |Sects()|
      ensures res == Ok && !astray ==> old(bytes) <= bytes && (chain == old(chain) || (chain != [] && Capacity(|chain| - 1) < fptr))
      ensures res == Ok && !astray ==> fptr == ofs || (fptr < ofs && NoneIsFree(fs.fat) && canWrite && fptr == |bytes|)
      ensures res == Ok && !astray ==> Grown(old(SpaceOf(fs)), old(chain), SpaceOf(fs), chain)
      ensures res == Ok && !astray && old(Home()) ==> Home() && OnlyChanged(old(fs.data), fs.data, Sects())
      ensures dirty ==> old(dirty)
      ensures res == Ok && OnBoundary(fptr) ==> dirty == old(dirty) && dsect == old(dsect) && buf[..] == old(buf[..])
      ensures Explained(res, fs.errors > old(fs.errors), old(fs.fat), fs.fat)
      ensures res == Ok && !astray ==> dsect == old(dsect) || dsect in Sects()
    {
      hide HasOne, Positioned, Layout, FileSectors, ImageSector, IsChain, Grown, CountIsRight, NoneIsFree, OnlyChanged, Buffered, StoredHere, StoredElsewhere, InCluster, SectorIndex, OnBoundary, AtClusterStart,
        Volume.Shape, Volume.Decoded, Volume.WindowCoherent, Volume.DiskCoherent, Volume.MirrorCoherent, DataFits;
      OnlyChangedReflexive(fs.data, Sects());
      BytesFit();
      fs.Bounds();
      var none, rest;
      res, none, rest, astray := SeekChain(ofs);
      if res != Ok { return; }
      OnlyChangedReflexive(fs.data, Sects());
      if none {
        AtTop();
        BytesFit();
        return;
      }
      res := SeekPlace(rest);
      if res == Ok {
        BytesFit();
      }
    }

    /** From the start of its cluster the file pointer moves to its target, and the buffer follows. */
    method SeekPlace(rest: nat) returns (res: FResult)
      requires Coherent() && AtClusterStart() && 0 < rest <= fs.g.csize * 512 && fptr + rest < 0x1_0000_0000
      modifies this`fptr, this`error, this`dirty, this`dsect, buf
      modifies fs`disk, fs`faults, fs`errors, fs`data
      ensures fs.Valid() && (res == Ok ==> error == old(error)) && (res != Ok ==> error && res == DiskErr && fs.errors > old(fs.errors)) && fs.Tried()
      ensures res == Ok ==> Coherent() && Positioned() && fptr == old(fptr) + rest
      ensures res == Ok && old(Home()) ==> Home() && OnlyChanged(old(fs.data), fs.data, Sects())
      ensures dirty ==> old(dirty)
      ensures res == Ok && OnBoundary(fptr) ==> dirty == old(dirty) && dsect == old(dsect) && buf[..] == old(buf[..])
      ensures res == Ok ==> dsect == old(dsect) || dsect in Sects()
    {
      hide Positioned, Layout, FileSectors, IsChain, OnlyChanged, Buffered, StoredHere, StoredElsewhere, InCluster, SectorIndex, OnBoundary, AtClusterStart,
        Volume.Shape, Volume.Decoded, Volume.WindowCoherent, Volume.DiskCoherent, Volume.MirrorCoherent, DataFits;
      var nsect;
      res, nsect := SeekInside(rest);
      res := SeekBuffer(nsect);
    }

    /** The part that follows the chain; none when the disk is full and the file has no cluster. */
    method SeekChain(ofs: Dword) returns (res: FResult, none: bool, rest: nat, ghost astray: bool)
      requires Coherent() && Positioned() && ofs > 0 && (!canWrite ==> ofs <= |bytes|)
      modifies this`orgClust, this`currClust, this`ci, this`chain, this`bytes, this`error, this`fptr
      modifies fs`disk, fs`faults, fs`winsect, fs`wflag, fs`errors, fs`mirrorLost
      modifies fs`image, fs`fat, fs`freeClust, fs`lastClust, fs`fsiFlag, fs.win
      ensures fs.Valid() && (res == Ok ==> error == old(error)) && (res != Ok ==> error)
      ensures fs.Looked() && (astray ==> fs.errors > old(fs.errors))
      ensures res == Ok ==> Coherent()
      ensures res == Ok && none ==> fptr == 0 && bytes == [] && chain == old(chain) && NoneIsFree(fs.fat) && canWrite && !astray
      ensures res == Ok && !none ==> AtClusterStart() && 0 < rest <= fs.g.csize * 512 && fptr + rest <= ofs
      ensures res == Ok && !astray ==> Grown(old(SpaceOf(fs)), old(chain), SpaceOf(fs), chain) && old(bytes) <= bytes
      ensures res == Ok && !astray && !none ==>
                Lean(old(chain), fptr) && (fptr + rest == ofs || (NoneIsFree(fs.fat) && canWrite && fptr + rest == |bytes|))
      ensures res == Ok && !astray && old(Home()) ==> Home()
      ensures Explained(res, fs.errors > old(fs.errors), old(fs.fat), fs.fat)
    {
      hide HasOne, FileSectors, ImageSector, IsChain, Grown, CountIsRight, NoneIsFree, Layout, Buffered, StoredHere, StoredElsewhere, InCluster, SectorIndex, OnBoundary, AtClusterStart,
        Volume.Shape, Volume.Decoded, Volume.WindowCoherent, Volume.DiskCoherent, Volume.MirrorCoherent, DataFits;
      var clst, full;
      BytesFit();
      astray, none := false, false;
      ghost var s0, ch0 := SpaceOf(fs), chain;
      res, clst, rest := SeekStart(ofs);
      if res != Ok { return; }
      HomeKept(s0, ch0, SpaceOf(fs));
      if clst == 0 {
        none := true;
        return;
      }
      ghost var s1, ch1, p1 := SpaceOf(fs), chain, fptr;
      res, rest, full, astray := SeekFollow(rest);
      if res != Ok { return; }
      if !astray {
        GrownTransitive(s0, ch0, s1, ch1, SpaceOf(fs), chain);
        HomeKept(s0, ch0, SpaceOf(fs));
        LeanStill(ch0, ch1, p1);
      }
    }

    /** A longer chain keeps a pending write at home. */
    lemma HomeKept(s0: Space, ch0: seq<nat>, s: Space)
      requires 2 <= fs.g.nFatent && Grown(s0, ch0, s, chain)
      ensures dirty && dsect in FileSectors(fs.g, ch0) ==> Home()
    {
      hide FileSectors, CountIsRight;
      FileSectorsPrefix(fs.g, ch0, chain);
      PrefixMember(FileSectors(fs.g, ch0), Sects(), dsect);
    }

    // ---------- truncating ----------

    /** The chain is taken to end after its first n clusters. */
    ghost method Shorten(n: nat)
      requires 2 <= fs.g.nFatent && buf.Length == 512 && |bytes| == 512 * |Sects()| && Buffered() && StoredElsewhere()
      requires n <= |chain|
      modifies this`chain, this`bytes
      ensures chain == old(chain)[..n] && Capacity(n) <= |old(bytes)| && bytes == old(bytes)[..Capacity(n)]
      ensures |bytes| == 512 * |Sects()| && Sects() <= old(Sects()) && Buffered() && StoredElsewhere()
    {
      hide FileSectors, ImageSector;
      var s0 := Sects();
      FileSectorsLength(fs.g, chain);
      FileSectorsLength(fs.g, chain[..n]);
      FileSectorsPrefix(fs.g, chain[..n], chain);
      MulMonotone(n, |chain|, fs.g.csize);
      assert 512 * (n * fs.g.csize) == n * (fs.g.csize * 512);
      assert 512 * (|chain| * fs.g.csize) == |chain| * (fs.g.csize * 512);
      var m := Capacity(n);
      forall k: nat | k < |FileSectors(fs.g, chain[..n])|
        ensures ImageSector(bytes[..m], k) == ImageSector(bytes, k)
      {
        PrefixSector(bytes, m, k);
      }
      chain := chain[..n];
      bytes := bytes[..m];
      assert forall k :: 0 <= k < |Sects()| ==> Sects()[k] == s0[k];
    }

    /** How many clusters a truncated file keeps. */
    ghost function KeptClusters(): nat
      reads this`fptr, this`ci
    {
      if fptr == 0 then 0 else ci + 1
    }

    /** The part of f_truncate that frees the clusters past the file pointer. */
    method CutChain() returns (res: FResult)
      requires fs.Valid() && 2 <= fs.g.nFatent && chain != [] && IsChain(fs.fat, chain) && orgClust == chain[0]
      requires fptr > 0 ==> ci < |chain| && currClust == chain[ci]
      modifies this`orgClust
      modifies fs`disk, fs`faults, fs`winsect, fs`wflag, fs`errors, fs`mirrorLost
      modifies fs`image, fs`fat, fs`freeClust, fs`fsiFlag, fs.win
      ensures fs.Valid() && fs.Looked() && (res != Ok ==> res == DiskErr && fs.errors > old(fs.errors)) && KeptClusters() <= |chain|
      ensures res == Ok ==> InFat(fs.g, fs.winsect) && orgClust == if fptr == 0 then 0 else chain[0]
      ensures res == Ok && fptr > 0 ==> currClust < |old(fs.fat)| && currClust == chain[ci]
      ensures res == Ok ==> fs.fat == Cut(old(fs.fat), chain, KeptClusters(), EndValue(fs.g))
      ensures res == Ok && CountIsRight(old(fs.freeClust), old(fs.fat)) ==> CountIsRight(fs.freeClust, fs.fat)
    {
      hide IsChain, Cut, Freed, FreeWalk, CountIsRight, Volume.Shape, Volume.Decoded, Volume.WindowCoherent,
        Volume.DiskCoherent, Volume.MirrorCoherent, DataFits, Truncate;
      fs.Bounds();
      if fptr == 0 {
        FirstOfChain(fs.fat, chain);
        WalkFreesChain(fs.fat, chain);
        CutAll(fs.fat, chain, EndValue(fs.g));
        res := RemoveChain(fs, orgClust);
        orgClust := 0;
      } else {
        res := CutAfter();
      }
    }

    /** The links of currClust are cut, and what followed it is freed. */
    method CutAfter() returns (res: FResult)
      requires fs.Valid() && 2 <= fs.g.nFatent && IsChain(fs.fat, chain) && ci < |chain| && currClust == chain[ci]
      modifies fs`disk, fs`faults, fs`winsect, fs`wflag, fs`errors, fs`mirrorLost
      modifies fs`image, fs`fat, fs`freeClust, fs`fsiFlag, fs.win
      ensures fs.Valid() && fs.Looked() && (res != Ok ==> res == DiskErr && fs.errors > old(fs.errors))
      ensures res == Ok ==> InFat(fs.g, fs.winsect)
      ensures res == Ok ==> currClust < |old(fs.fat)| && fs.fat == Cut(old(fs.fat), chain, ci + 1, EndValue(fs.g))
      ensures res == Ok && CountIsRight(old(fs.freeClust), old(fs.fat)) ==> CountIsRight(fs.freeClust, fs.fat)
    {
      hide IsChain, Freed, FreeWalk, CountIsRight, Volume.Shape, Volume.Decoded, Volume.WindowCoherent,
        Volume.DiskCoherent, Volume.MirrorCoherent, DataFits, Truncate;
      fs.Bounds();
      ghost var f0 := fs.fat;
      LastInChain(f0, chain, ci);
      var ncl := fs.GetFat(currClust);
      if ncl == DISK_ERROR { return DiskErr; }
      if ncl == 1 { return IntErr; }
      res := Ok;
      if ncl < fs.g.nFatent {
        CutWalk(f0, chain, ci + 1, EndValue(fs.g));
        RelinkKeepsCount(fs.freeClust, f0, currClust, EndValue(fs.g));
        res := fs.PutFat(currClust, END_MARK);
        if res == Ok {
          res := RemoveChain(fs, ncl);
        }
      }
    }

    /** The sectors that a truncation gives up. */
    ghost function Tail(): seq<nat>
      requires 2 <= fs.g.nFatent && KeptClusters() <= |chain|
      reads this`chain, this`fptr, this`ci
    {
      FileSectors(fs.g, chain[KeptClusters()..])
    }

    /** The buffer waits to be written to a cluster that is free. */
    ghost predicate PendingInFree()
      requires 2 <= fs.g.nFatent
      reads this`dsect, this`dirty, fs`fat
    {
      dirty && exists c :: InRange(fs.fat, c) && fs.fat[c] == 0 && dsect in ClusterSectors(fs.g, c)
    }

    /** f_truncate: the file ends at the file pointer and the clusters past it are free. A buffer that holds
        a sector past the cut is neither written back nor dropped: if it is dirty, and only then, the next
        flush goes to a cluster that is no longer the file's. */
    method TruncateFile() returns (res: FResult)
      requires fs.Valid() && (!error ==> Valid())
      modifies this`orgClust, this`chain, this`bytes, this`error, this`fsize, this`written
      modifies fs`disk, fs`faults, fs`winsect, fs`wflag, fs`errors, fs`mirrorLost
      modifies fs`image, fs`fat, fs`freeClust, fs`fsiFlag, fs.win
      ensures fs.Valid() && fs.Looked()
      ensures old(error) ==> res == IntErr && error
      ensures (res == Denied <==> !old(error) && !canWrite) && (res == Denied ==> Valid() && fs.fat == old(fs.fat))
      ensures res != Ok && res != Denied ==> error && (!old(error) ==> res == DiskErr && fs.errors > old(fs.errors))
      ensures res == Ok ==> old(Valid()) && Valid() && fsize == fptr && Contents() == old(Contents())[..fptr]
      ensures res == Ok && old(fsize) == fptr ==> chain == old(chain) && fs.fat == old(fs.fat)
      ensures res == Ok && old(fsize) > fptr ==>
                && KeptClusters() <= |old(chain)| && chain == old(chain)[..KeptClusters()]
                && (fptr > 0 ==> currClust < |old(fs.fat)| && currClust == chain[ci])
                && fs.fat == Cut(old(fs.fat), old(chain), KeptClusters(), EndValue(fs.g))
      ensures res == Ok && old(fsize) > fptr && old(Home()) ==> (Home() <==> !(dirty && dsect in old(Tail())))
      ensures res == Ok && old(Home()) ==> Home() || PendingInFree()
      ensures res == Ok && CountIsRight(old(fs.freeClust), old(fs.fat)) ==> CountIsRight(fs.freeClust, fs.fat)
      ensures res == Denied ==> Untouched()
      ensures res != Denied && !old(error) ==> written == (old(written) || old(fsize) > fptr)
    {
      hide FileSectors, ImageSector, IsChain, Cut, CountIsRight, Layout, Buffered, StoredElsewhere, StoredHere, SectorIndex, OnBoundary, Volume.Shape, Volume.Decoded, Volume.WindowCoherent, Volume.DiskCoherent, Volume.MirrorCoherent, DataFits;
      if error { return IntErr; }
      if !canWrite { return Denied; }
      res := Ok;
      if fsize > fptr {
        res := CutFile();
      }
    }

    /** The part of f_truncate that shortens a file. */
    method CutFile() returns (res: FResult)
      requires Valid() && fsize > fptr
      modifies this`orgClust, this`chain, this`bytes, this`error, this`fsize, this`written
      modifies fs`disk, fs`faults, fs`winsect, fs`wflag, fs`errors, fs`mirrorLost
      modifies fs`image, fs`fat, fs`freeClust, fs`fsiFlag, fs.win
      ensures fs.Valid() && fs.Looked() && (res != Ok ==> error && res == DiskErr && fs.errors > old(fs.errors))
      ensures KeptClusters() <= |old(chain)|
      ensures res == Ok ==> Valid() && fsize == fptr && bytes[..fptr] == old(Contents())[..fptr]
      ensures res == Ok ==> chain == old(chain)[..KeptClusters()]
      ensures res == Ok && fptr > 0 ==> currClust < |old(fs.fat)| && currClust == old(chain)[ci]
      ensures res == Ok ==> fs.fat == Cut(old(fs.fat), old(chain), KeptClusters(), EndValue(fs.g))
      ensures res == Ok && old(Home()) ==> (Home() <==> !(dirty && dsect in old(Tail()))) && (Home() || PendingInFree())
      ensures res == Ok && CountIsRight(old(fs.freeClust), old(fs.fat)) ==> CountIsRight(fs.freeClust, fs.fat)
      ensures written && (res == Ok ==> orgClust == if fptr == 0 then 0 else old(orgClust))
    {
      hide FileSectors, ImageSector, IsChain, Cut, CountIsRight, Buffered, StoredHere, StoredElsewhere, SectorIndex, OnBoundary, Volume.Shape, Volume.Decoded, Volume.WindowCoherent, Volume.DiskCoherent, Volume.MirrorCoherent, DataFits;
      ghost var b0, n, f0, ch0 := bytes, KeptClusters(), fs.fat, chain;
      fs.Bounds();
      ChainSectors(fs, chain);
      EmptyFile();
      if fptr > 0 {
        CutStaysChain(fs.fat, chain, n, EndValue(fs.g));
      }
      fsize := fptr;
      written := true;
      res := CutChain();
      if res != Ok {
        error := true;
        return;
      }
      ShortenHere();
      SlicedTwice(b0, |bytes|, old(fsize), fptr);
      if old(Home()) {
        CutHome(f0, ch0, n);
      }
    }

    /** The chain ends where it has been cut, at the cluster of the file pointer. */
    ghost method ShortenHere()
      requires fs.Valid() && 2 <= fs.g.nFatent && 1 <= fs.g.csize && buf.Length == 512 && buf != fs.win && InFat(fs.g, fs.winsect)
      requires |bytes| == 512 * |Sects()| && Buffered() && StoredElsewhere() && StoredHere() && Positioned()
      requires dsect != 0 ==> DataSector(fs.g, dsect) && dsect < fs.sectors
      requires KeptClusters() <= |chain| && orgClust == if fptr == 0 then 0 else chain[0]
      requires fptr > 0 ==> IsChain(fs.fat, chain[..KeptClusters()])
      modifies this`chain, this`bytes
      ensures Coherent() && Positioned() && chain == old(chain)[..KeptClusters()]
      ensures bytes <= old(bytes)
    {
      hide FileSectors, ImageSector, IsChain, Buffered, StoredElsewhere, StoredHere, SectorIndex, OnBoundary, Volume.Shape, Volume.Decoded, Volume.WindowCoherent, Volume.DiskCoherent, Volume.MirrorCoherent, DataFits;
      ghost var s0 := Sects();
      Shorten(KeptClusters());
      WindowElsewhere();
      StillPositioned(s0);
    }

    /** What a cut does to a pending write. */
    lemma CutHome(f0: Fat, ch0: seq<nat>, n: nat)
      requires 2 <= fs.g.nFatent == |f0| && 1 <= fs.g.csize && IsChain(f0, ch0) && n <= |ch0| && chain == ch0[..n]
      requires n > 0 ==> ch0[n - 1] < |f0|
      requires fs.fat == Cut(f0, ch0, n, EndValue(fs.g)) && (dirty ==> dsect in FileSectors(fs.g, ch0))
      ensures Home() <==> !(dirty && dsect in FileSectors(fs.g, ch0[n..]))
      ensures Home() || PendingInFree()
    {
      hide FileSectors, ClusterSectors, Cut;
      ChainIsAcyclic(f0, ch0);
      SplitSectors(fs.g, ch0, n);
      if dirty && dsect !in Sects() {
        var c := StaleSector(fs.g, f0, ch0, n, EndValue(fs.g), dsect);
        AmongChain(f0, ch0, n, c);
      }
    }

    /** The file pointer is as good as before the cut. */
    lemma StillPositioned(s0: seq<nat>)
      requires 2 <= fs.g.nFatent && fs.g.csize >= 1 && |bytes| == 512 * |Sects()| && Sects() <= s0
      requires fptr > 0 ==> InCluster(SectorIndex(fptr - 1)) && ci + 1 == |chain|
      requires !OnBoundary(fptr) ==> SectorIndex(fptr) < |s0| && dsect == s0[SectorIndex(fptr)]
      ensures Positioned()
    {
      hide FileSectors, SectorIndex, OnBoundary;
      SectorZero();
      if fptr > 0 {
        FileSectorsLength(fs.g, chain);
        ClusterOfByte(fptr - 1, ci, fs.g.csize);
        assert 512 * (|chain| * fs.g.csize) == ci * (fs.g.csize * 512) + fs.g.csize * 512;
        assert |chain| * fs.g.csize == ci * fs.g.csize + fs.g.csize;
        SectorBefore(fptr);
      }
    }
  }

  /** A pending write to a sector of another file, which has taken its cluster meanwhile, changes that file
      exactly when the buffer differs from what the file has there. */
  lemma PendingWriteHits(g: Geometry, d: seq<Sector>, other: seq<nat>, c: nat, s: nat, b: Sector)
    requires 2 <= g.nFatent && c in other && s in ClusterSectors(g, c) && s < |d| && InDisk(d, FileSectors(g, other))
    ensures Gather(d[s := b], FileSectors(g, other)) != Gather(d, FileSectors(g, other)) <==> d[s] != b
  {
    hide FileSectors, ClusterSectors, Gather;
    var q: nat :| q < |other| && other[q] == c;
    var r: nat :| r < |ClusterSectors(g, c)| && ClusterSectors(g, c)[r] == s;
    ClusterHasSector(g, c, r);
    FileSectorAt(g, other, q, r);
    var k := q * g.csize + r;
    GatherAt(d, FileSectors(g, other), k);
    GatherAt(d[s := b], FileSectors(g, other), k);
    assert d[s] == b ==> d[s := b] == d;
  }

  lemma ClusterHasSector(g: Geometry, c: nat, r: nat)
    requires 2 <= g.nFatent && r < |ClusterSectors(g, c)|
    ensures r < g.csize && ClusterSectors(g, c)[r] == Clust2Sect(g, c) + r
  {
  }
}
