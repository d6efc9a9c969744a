/** Files and their directory entries: while a file is open, what its entry does not say yet is marked as to be
    written, and after f_sync the entry opens as a file with the same contents. The same for the free count. */
module FatDurable {
  import opened Basics
  import opened FatCodec
  import opened FatVolume
  import opened FatChains
  import opened FatSectors
  import opened FatAllocator
  import opened FatFile
  import opened FatFileTheory
  import opened FatSync

  /** A sector of the directory whose chain is dch, or of the static root directory. */
  ghost predicate InDirectory(g: Geometry, sectors: nat, f: Fat, dch: seq<nat>, s: nat)
    requires 2 <= g.nFatent
  {
    if dch == [] then DataSector(g, s) && s < g.database && s < sectors
    else IsChain(f, dch) && s in FileSectors(g, dch)
  }

  /** A file is open: its entry, in a directory that shares no cluster with it, names its size and its first cluster
      and nothing waits in its buffer, unless it is marked as written. */
  ghost predicate Opened(fp: FileObject, dch: seq<nat>, dirSect: nat, dirOfs: nat)
    reads fp, fp.fs, fp.fs.win, fp.buf
  {
    && fp.Valid() && dirOfs + 32 <= 512 && dirSect != fp.dsect && Disjoint(dch, fp.chain)
    && InDirectory(fp.fs.g, fp.fs.sectors, fp.fs.fat, dch, dirSect) && dirSect < |fp.fs.data|
    && Named(fp, fp.fs.data[dirSect], dirOfs)
  }

  ghost predicate Named(fp: FileObject, entry: Sector, o: nat)
    requires o + 32 <= 512
    reads fp`written, fp`dirty, fp`fsize, fp`orgClust
  {
    !fp.written ==> !fp.dirty && OpenedFrom(entry[o..o + 32]) == (fp.fsize, fp.orgClust)
  }

  lemma EntryElsewhere(fp: FileObject, dch: seq<nat>, dirSect: nat, dirOfs: nat)
    requires fp.Valid() && dirOfs + 32 <= 512 && dirSect != fp.dsect && Disjoint(dch, fp.chain)
    requires InDirectory(fp.fs.g, fp.fs.sectors, fp.fs.fat, dch, dirSect)
    ensures EntryPlace(fp, dirSect, dirOfs) && dirSect < fp.fs.sectors && |fp.fs.data| == fp.fs.sectors
    ensures if fp.chain == [] then fp.orgClust == 0 else fp.orgClust == fp.chain[0]
  {
    hide FileSectors, ImageSector, FileObject.Buffered, FileObject.StoredElsewhere, FileObject.StoredHere, FileObject.Positioned,
      Volume.Decoded, Volume.WindowCoherent, Volume.DiskCoherent, Volume.MirrorCoherent;
    FileSectorsInside(fp.fs.g, fp.fs.sectors, fp.chain);
    if dch != [] {
      ChainSectors(fp.fs, dch);
      FileSectorsDisjoint(fp.fs.g, dch, fp.chain);
    } else {
      ChainSectors(fp.fs, fp.chain);
    }
  }

  /** After the file has grown and has written sectors of its own, its entry is where and what it was. */
  lemma EntryKept(fp: FileObject, dch: seq<nat>, dirSect: nat, s0: Space, ch0: seq<nat>, d0: seq<Sector>, dsect0: nat)
    requires fp.Valid() && |s0.fat| == fp.fs.g.nFatent && |d0| == fp.fs.sectors
    requires InDirectory(fp.fs.g, fp.fs.sectors, s0.fat, dch, dirSect) && Disjoint(dch, ch0) && dirSect != dsect0
    requires Grown(s0, ch0, SpaceOf(fp.fs), fp.chain) && OnlyChanged(d0, fp.fs.data, fp.Sects())
    requires fp.dsect == dsect0 || fp.dsect in fp.Sects()
    ensures InDirectory(fp.fs.g, fp.fs.sectors, fp.fs.fat, dch, dirSect) && Disjoint(dch, fp.chain) && dirSect != fp.dsect
    ensures dirSect < |d0| == |fp.fs.data| && fp.fs.data[dirSect] == d0[dirSect]
  {
    hide FileSectors, ImageSector, Grown, CountIsRight, FileObject.Buffered, FileObject.StoredElsewhere, FileObject.StoredHere, FileObject.Positioned,
      Volume.Decoded, Volume.WindowCoherent, Volume.DiskCoherent, Volume.MirrorCoherent;
    ChainSectors(fp.fs, fp.chain);
    FileSectorsInside(fp.fs.g, fp.fs.sectors, fp.chain);
    if dch != [] {
      OtherFileKept(fp.fs.g, fp.fs.sectors, s0, ch0, SpaceOf(fp.fs), fp.chain, d0, fp.fs.data, dch);
      FileSectorsDisjoint(fp.fs.g, dch, fp.chain);
      ChainSectors(fp.fs, dch);
    }
  }

  /** The FSInfo sector is no sector of a file. */
  lemma CountKept(fp: FileObject, fsiSector: nat, d0: seq<Sector>, pending0: bool, free0: Dword)
    requires fp.Valid() && (fp.fs.g.fatType == Fat32 ==> 0 < fsiSector < fp.fs.g.fatbase)
    requires OnlyChanged(d0, fp.fs.data, fp.Sects()) && (fp.fs.freeClust != free0 ==> fp.fs.fsiFlag) && (pending0 ==> fp.fs.fsiFlag)
    requires fp.fs.g.fatType == Fat32 ==> InfoShows(d0, fsiSector, pending0, free0)
    ensures Counted(fp.fs, fsiSector)
  {
    hide MountedFree, FileSectors, IsChain, FileObject.Buffered, FileObject.StoredElsewhere, FileObject.StoredHere, FileObject.Positioned,
      Volume.Decoded, Volume.WindowCoherent, Volume.DiskCoherent, Volume.MirrorCoherent;
    ChainSectors(fp.fs, fp.chain);
  }

  /** What an open file is on: its chain, and its first cluster. */
  lemma OpenedNow(fp: FileObject, dch: seq<nat>, dirSect: nat, dirOfs: nat)
    requires Opened(fp, dch, dirSect, dirOfs)
    ensures |fp.fs.fat| == fp.fs.g.nFatent && |fp.fs.data| == fp.fs.sectors && 2 <= fp.fs.g.nFatent
    ensures if fp.chain == [] then fp.orgClust == 0 && fp.bytes == [] else IsChain(fp.fs.fat, fp.chain) && fp.orgClust == fp.chain[0]
    ensures EntryPlace(fp, dirSect, dirOfs)
  {
    hide FileSectors, ImageSector, IsChain, FileObject.Buffered, FileObject.StoredElsewhere, FileObject.StoredHere, FileObject.Positioned,
      Volume.Decoded, Volume.WindowCoherent, Volume.DiskCoherent, Volume.MirrorCoherent, DataFits;
    EntryElsewhere(fp, dch, dirSect, dirOfs);
    fp.EmptyFile();
    fp.fs.Bounds();
  }

  /** f_write on an open file. */
  method WriteOpened(fp: FileObject, ghost dch: seq<nat>, ghost dirSect: nat, ghost dirOfs: nat, ghost fsiSector: nat, buff: seq<Byte>)
    returns (res: FResult, bw: nat, ghost astray: bool)
    requires Opened(fp, dch, dirSect, dirOfs) && fp.Home() && (fp.fs.g.fatType == Fat32 ==> 0 < fsiSector < fp.fs.g.fatbase)
    modifies fp, fp.buf, fp.fs, fp.fs.win
    ensures res == Ok && !astray ==> Opened(fp, dch, dirSect, dirOfs) && fp.Home() && bw <= |buff|
    ensures res == Ok && !astray ==> fp.Contents() == Overwrite(old(fp.Contents()), old(fp.fptr), buff[..bw])
    ensures res == Ok && !astray && old(Counted(fp.fs, fsiSector)) ==> Counted(fp.fs, fsiSector)
    ensures fp.fs.Tried() && (res == Denied || Explained(res, fp.fs.errors > old(fp.fs.errors), old(fp.fs.fat), fp.fs.fat))
  {
    hide InDirectory, InfoShows, FileObject.Layout, FileSectors, IsChain, Grown, OnlyChanged, CountIsRight, Overwrite, Explained, HasOne, NoneIsFree, FileObject.Buffered, FileObject.StoredElsewhere, FileObject.StoredHere, FileObject.Positioned,
      Volume.Shape, Volume.Decoded, Volume.WindowCoherent, Volume.DiskCoherent, Volume.MirrorCoherent, DataFits;
    OpenedNow(fp, dch, dirSect, dirOfs);
    ghost var s0, ch0, d0, x0, n0, f0 := SpaceOf(fp.fs), fp.chain, fp.fs.data, fp.dsect, fp.fs.fsiFlag, fp.fs.freeClust;
    res, bw, astray := fp.Write(buff);
    if res == Ok && !astray {
      EntryKept(fp, dch, dirSect, s0, ch0, d0, x0);
      if fp.fs.g.fatType == Fat32 ==> InfoShows(d0, fsiSector, n0, f0) {
        CountKept(fp, fsiSector, d0, n0, f0);
      }
    }
  }

  /** f_lseek on an open file. */
  method SeekOpened(fp: FileObject, ghost dch: seq<nat>, ghost dirSect: nat, ghost dirOfs: nat, ghost fsiSector: nat, ofs: Dword)
    returns (res: FResult, ghost astray: bool)
    requires Opened(fp, dch, dirSect, dirOfs) && fp.Home() && (fp.fs.g.fatType == Fat32 ==> 0 < fsiSector < fp.fs.g.fatbase)
    modifies fp, fp.buf, fp.fs, fp.fs.win
    ensures res == Ok && !astray ==> Opened(fp, dch, dirSect, dirOfs) && fp.Home() && old(fp.Contents()) <= fp.Contents()
    ensures res == Ok && !astray && old(Counted(fp.fs, fsiSector)) ==> Counted(fp.fs, fsiSector)
    ensures fp.fs.Tried() && (res == Denied || Explained(res, fp.fs.errors > old(fp.fs.errors), old(fp.fs.fat), fp.fs.fat))
  {
    hide InDirectory, InfoShows, FileObject.Layout, FileSectors, IsChain, Grown, OnlyChanged, CountIsRight, Overwrite, Explained, HasOne, NoneIsFree, FileObject.Buffered, FileObject.StoredElsewhere, FileObject.StoredHere, FileObject.Positioned,
      Volume.Shape, Volume.Decoded, Volume.WindowCoherent, Volume.DiskCoherent, Volume.MirrorCoherent, DataFits;
    OpenedNow(fp, dch, dirSect, dirOfs);
    ghost var s0, ch0, d0, x0, n0, f0, o0, z0 := SpaceOf(fp.fs), fp.chain, fp.fs.data, fp.dsect, fp.fs.fsiFlag, fp.fs.freeClust, fp.orgClust, fp.fsize;
    res, astray := fp.Seek(ofs);
    if res == Ok && !astray {
      EntryKept(fp, dch, dirSect, s0, ch0, d0, x0);
      if fp.fs.g.fatType == Fat32 ==> InfoShows(d0, fsiSector, n0, f0) {
        CountKept(fp, fsiSector, d0, n0, f0);
      }
      SameStart(fp, s0, ch0, z0, o0);
    }
  }

  /** A seek that leaves the size leaves the first cluster. */
  lemma SameStart(fp: FileObject, s0: Space, ch0: seq<nat>, size0: nat, org0: nat)
    requires fp.Valid() && Grown(s0, ch0, SpaceOf(fp.fs), fp.chain) && (if ch0 == [] then org0 == 0 && size0 == 0 else org0 == ch0[0])
    requires fp.chain == ch0 || (fp.chain != [] && fp.Capacity(|fp.chain| - 1) < fp.fptr)
    ensures fp.fsize == size0 ==> fp.orgClust == org0
  {
    hide FileSectors, ImageSector, IsChain, CountIsRight, FileObject.Buffered, FileObject.StoredElsewhere, FileObject.StoredHere, FileObject.Positioned,
      Volume.Shape, Volume.Decoded, Volume.WindowCoherent, Volume.DiskCoherent, Volume.MirrorCoherent, DataFits;
  }

  /** f_read on an open file. */
  method ReadOpened(fp: FileObject, ghost dch: seq<nat>, ghost dirSect: nat, ghost dirOfs: nat, ghost fsiSector: nat, btr: nat)
    returns (res: FResult, rbuff: seq<Byte>)
    requires Opened(fp, dch, dirSect, dirOfs) && fp.Home() && (fp.fs.g.fatType == Fat32 ==> 0 < fsiSector < fp.fs.g.fatbase)
    modifies fp, fp.buf, fp.fs, fp.fs.win
    ensures res == Ok ==> Opened(fp, dch, dirSect, dirOfs) && fp.Home() && fp.Contents() == old(fp.Contents())
    ensures res == Ok && old(Counted(fp.fs, fsiSector)) ==> Counted(fp.fs, fsiSector)
    ensures fp.fs.Tried() && (res == Ok || (res == Denied && !fp.canRead) || fp.fs.errors > old(fp.fs.errors))
  {
    hide InDirectory, InfoShows, FileObject.Layout, FileSectors, IsChain, Grown, OnlyChanged, CountIsRight, Overwrite, Explained, HasOne, NoneIsFree, FileObject.Buffered, FileObject.StoredElsewhere, FileObject.StoredHere, FileObject.Positioned,
      Volume.Shape, Volume.Decoded, Volume.WindowCoherent, Volume.DiskCoherent, Volume.MirrorCoherent, DataFits;
    OpenedNow(fp, dch, dirSect, dirOfs);
    ghost var s0, d0, x0, n0, f0 := SpaceOf(fp.fs), fp.fs.data, fp.dsect, fp.fs.fsiFlag, fp.fs.freeClust;
    GrownReflexive(s0, fp.chain);
    res, rbuff := fp.Read(btr);
    if res == Ok {
      EntryKept(fp, dch, dirSect, s0, fp.chain, d0, x0);
      if fp.fs.g.fatType == Fat32 ==> InfoShows(d0, fsiSector, n0, f0) {
        CountKept(fp, fsiSector, d0, n0, f0);
      }
    }
  }

  /** f_truncate on an open file. */
  method TruncateOpened(fp: FileObject, ghost dch: seq<nat>, ghost dirSect: nat, ghost dirOfs: nat, ghost fsiSector: nat) returns (res: FResult)
    requires Opened(fp, dch, dirSect, dirOfs) && fp.Home() && (fp.fs.g.fatType == Fat32 ==> 0 < fsiSector < fp.fs.g.fatbase)
    modifies fp, fp.buf, fp.fs, fp.fs.win
    ensures res == Ok ==> Opened(fp, dch, dirSect, dirOfs) && fp.fptr == old(fp.fptr) && fp.fptr <= |old(fp.Contents())| && fp.Contents() == old(fp.Contents())[..fp.fptr]
    ensures res == Ok && old(Counted(fp.fs, fsiSector)) ==> Counted(fp.fs, fsiSector)
    ensures fp.fs.Tried() && (res == Ok || (res == Denied && !fp.canWrite) || fp.fs.errors > old(fp.fs.errors))
  {
    hide Cut, InDirectory, InfoShows, FileObject.Layout, FileSectors, IsChain, Grown, OnlyChanged, CountIsRight, Overwrite, Explained, HasOne, NoneIsFree, FileObject.Buffered, FileObject.StoredElsewhere, FileObject.StoredHere, FileObject.Positioned,
      Volume.Shape, Volume.Decoded, Volume.WindowCoherent, Volume.DiskCoherent, Volume.MirrorCoherent, DataFits;
    OpenedNow(fp, dch, dirSect, dirOfs);
    ghost var f0, ch0, d0, n0, c0, o0, n := fp.fs.fat, fp.chain, fp.fs.data, fp.fs.fsiFlag, fp.fs.freeClust, fp.orgClust, fp.KeptClusters();
    res := fp.TruncateFile();
    if res == Ok {
      CutEntryKept(fp, dch, dirSect, f0, ch0, n);
      CountNoted(d0, fsiSector, n0, c0, fp.fs.fsiFlag, fp.fs.freeClust);
    }
  }

  lemma CountNoted(d: seq<Sector>, fsiSector: nat, pending0: bool, free0: Dword, pending: bool, free: Dword)
    requires (free != free0 ==> pending) && (pending0 ==> pending)
    ensures InfoShows(d, fsiSector, pending0, free0) ==> InfoShows(d, fsiSector, pending, free)
  {
  }

  /** After its chain has been cut the entry of the file is where it was. */
  lemma CutEntryKept(fp: FileObject, dch: seq<nat>, dirSect: nat, f0: Fat, ch0: seq<nat>, n: nat)
    requires fp.Valid() && |f0| == fp.fs.g.nFatent
    requires InDirectory(fp.fs.g, fp.fs.sectors, f0, dch, dirSect) && Disjoint(dch, ch0)
    requires (fp.chain == ch0 && fp.fs.fat == f0)
          || (n <= |ch0| && fp.chain == ch0[..n] && IsChain(f0, ch0) && (n > 0 ==> ch0[n - 1] < |f0|) && fp.fs.fat == Cut(f0, ch0, n, EndValue(fp.fs.g)))
    ensures InDirectory(fp.fs.g, fp.fs.sectors, fp.fs.fat, dch, dirSect) && Disjoint(dch, fp.chain)
    ensures if fp.chain == [] then fp.orgClust == 0 else fp.orgClust == fp.chain[0]
  {
    hide FileSectors, ImageSector, IsChain, Cut, FileObject.Buffered, FileObject.StoredElsewhere, FileObject.StoredHere, FileObject.Positioned,
      Volume.Shape, Volume.Decoded, Volume.WindowCoherent, Volume.DiskCoherent, Volume.MirrorCoherent, DataFits;
    if fp.fs.fat != f0 && dch != [] {
      OtherFileKeptByCut(f0, ch0, n, EndValue(fp.fs.g), dch);
    }
  }

  /** f_sync on an open file. When the mark is cleared, on success at the latest, the entry names the file. */
  method SyncOpened(fp: FileObject, ghost dch: seq<nat>, dirSect: nat, dirOfs: nat, fsiSector: nat, time: Dword) returns (ok: bool)
    requires Opened(fp, dch, dirSect, dirOfs) && (fp.fs.g.fatType == Fat32 ==> 0 < fsiSector < fp.fs.g.fatbase)
    modifies fp, fp.fs, fp.fs.win
    ensures !fp.written ==> Opened(fp, dch, dirSect, dirOfs) && fp.Home()
    ensures ok ==> !fp.written && fp.Contents() == old(fp.Contents())
    ensures old(Counted(fp.fs, fsiSector)) && fp.fs.errors == old(fp.fs.errors) ==> Counted(fp.fs, fsiSector)
    ensures ok && old(fp.written && Counted(fp.fs, fsiSector)) && fp.fs.errors == old(fp.fs.errors) && fp.fs.g.fatType == Fat32 ==>
              fsiSector < |fp.fs.data| && MountedFree(fp.fs.data[fsiSector]) == fp.fs.freeClust
    ensures fp.fs.Tried() && (!ok ==> fp.fs.errors > old(fp.fs.errors))
  {
    hide InDirectory, MountedFree, FileObject.Layout, FileSectors, IsChain, EntryBytes, Gather, InDisk, FileObject.Buffered, FileObject.StoredElsewhere, FileObject.StoredHere, FileObject.Positioned,
      Volume.Shape, Volume.Decoded, Volume.WindowCoherent, Volume.DiskCoherent, Volume.MirrorCoherent, DataFits;
    OpenedNow(fp, dch, dirSect, dirOfs);
    ok := SyncFile(fp, dirSect, dirOfs, fsiSector, time);
  }

  /** f_open: reads the entry, and makes a file object for the chain that it names. */
  method OpenFile(fs: Volume, buf: array<Byte>, canRead: bool, canWrite: bool, dirSect: nat, dirOfs: nat, ghost dch: seq<nat>, ghost ch: seq<nat>)
    returns (ok: bool, q: FileObject?)
    requires fs.Valid() && 2 <= fs.g.nFatent && 1 <= fs.g.csize && buf.Length == 512 && buf != fs.win
    requires dirOfs + 32 <= 512 && InDirectory(fs.g, fs.sectors, fs.fat, dch, dirSect) && Disjoint(dch, ch) && dirSect < |fs.data|
    requires var e := OpenedFrom(fs.data[dirSect][dirOfs..dirOfs + 32]);
             (if ch == [] then e.1 == 0 else IsChain(fs.fat, ch) && e.1 == ch[0]) && e.0 <= 512 * |FileSectors(fs.g, ch)|
    modifies fs`disk, fs`faults, fs`winsect, fs`wflag, fs`errors, fs`mirrorLost, fs.win
    ensures fs.Valid() && (ok <==> q != null)
    ensures ok ==> fresh(q) && Opened(q, dch, dirSect, dirOfs) && q.fs == fs && q.chain == ch && q.fptr == 0 && !q.written
    ensures ok ==> InDisk(fs.data, q.Sects()) && q.bytes == Gather(fs.data, q.Sects()) && q.fsize == OpenedFrom(fs.data[dirSect][dirOfs..dirOfs + 32]).0
    ensures fs.Tried() && (!ok ==> fs.errors > old(fs.errors))
  {
    hide InDirectory, FileSectors, IsChain, OpenedFrom, Gather, InDisk, FileObject.Buffered, FileObject.StoredElsewhere, FileObject.StoredHere, FileObject.Positioned,
      Volume.Shape, Volume.Decoded, Volume.WindowCoherent, Volume.DiskCoherent, Volume.MirrorCoherent, DataFits;
    q := null;
    EntryApart(fs, dch, dirSect, ch);
    fs.Bounds();
    ok := fs.MoveWindow(dirSect);
    if ok {
      fs.WindowShows();
      var start := OpenedFrom(fs.win[dirOfs..dirOfs + 32]);
      q := new FileObject(fs, buf, canRead, canWrite, start.1, start.0, ch);
    }
  }

  lemma EntryApart(fs: Volume, dch: seq<nat>, dirSect: nat, ch: seq<nat>)
    requires fs.Valid() && 2 <= fs.g.nFatent && 1 <= fs.g.csize && InDirectory(fs.g, fs.sectors, fs.fat, dch, dirSect) && Disjoint(dch, ch)
    requires ch != [] ==> IsChain(fs.fat, ch)
    ensures DataSector(fs.g, dirSect) && dirSect !in FileSectors(fs.g, ch)
  {
    hide FileSectors, Volume.Decoded, Volume.WindowCoherent, Volume.DiskCoherent, Volume.MirrorCoherent;
    FileSectorsInside(fs.g, fs.sectors, ch);
    if dch != [] {
      ChainSectors(fs, dch);
      FileSectorsDisjoint(fs.g, dch, ch);
    }
  }

  /** An open file that is not marked, opened a second time, has the same contents. */
  method Reopen(fp: FileObject, dirSect: nat, dirOfs: nat, buf: array<Byte>, ghost dch: seq<nat>) returns (ok: bool, q: FileObject?)
    requires Opened(fp, dch, dirSect, dirOfs) && !fp.written && buf.Length == 512 && buf != fp.fs.win
    modifies fp.fs`disk, fp.fs`faults, fp.fs`winsect, fp.fs`wflag, fp.fs`errors, fp.fs`mirrorLost, fp.fs.win
    ensures fp.fs.Valid() && (ok <==> q != null)
    ensures ok ==> fresh(q) && Opened(q, dch, dirSect, dirOfs) && q.fs == fp.fs && q.Contents() == fp.Contents()
    ensures fp.fs.Tried() && (!ok ==> fp.fs.errors > old(fp.fs.errors))
  {
    hide InDirectory, FileSectors, IsChain, OpenedFrom, Gather, InDisk, AllStored, FileObject.Buffered, FileObject.StoredElsewhere, FileObject.StoredHere, FileObject.Positioned,
      Volume.Shape, Volume.Decoded, Volume.WindowCoherent, Volume.DiskCoherent, Volume.MirrorCoherent, DataFits;
    OpenedNow(fp, dch, dirSect, dirOfs);
    CleanIsStored(fp);
    StoredIsGathered(fp.fs.data, fp.Sects(), fp.bytes);
    fp.SomeSectors();
    ok, q := OpenFile(fp.fs, buf, fp.canRead, fp.canWrite, dirSect, dirOfs, dch, fp.chain);
  }

  // ---------- from a call to the next f_open ----------

  /** f_sync and f_open: after whatever calls have led to an open file, its contents are there. */
  method SyncAndOpen(fp: FileObject, dirSect: nat, dirOfs: nat, fsiSector: nat, time: Dword, buf: array<Byte>, ghost dch: seq<nat>) returns (ok: bool, q: FileObject?)
    requires Opened(fp, dch, dirSect, dirOfs) && (fp.fs.g.fatType == Fat32 ==> 0 < fsiSector < fp.fs.g.fatbase)
    requires buf.Length == 512 && buf != fp.fs.win
    modifies fp, fp.fs, fp.fs.win
    ensures ok ==> q != null && fresh(q) && Opened(q, dch, dirSect, dirOfs) && q.Contents() == old(fp.Contents())
    ensures fp.fs.Tried() && (!ok ==> fp.fs.errors > old(fp.fs.errors))
  {
    hide InDirectory, Named, FileObject.Layout, FileObject.Buffered, FileObject.StoredElsewhere, FileObject.StoredHere, FileObject.Positioned,
      Volume.Shape, Volume.Decoded, Volume.WindowCoherent, Volume.DiskCoherent, Volume.MirrorCoherent, DataFits;
    q := null;
    ok := SyncOpened(fp, dch, dirSect, dirOfs, fsiSector, time);
    if ok {
      ok, q := Reopen(fp, dirSect, dirOfs, buf, dch);
    }
  }

  /** f_truncate, f_sync and f_open: the contents end where the file pointer stood. */
  method TruncateSyncOpen(fp: FileObject, dirSect: nat, dirOfs: nat, fsiSector: nat, time: Dword, buf: array<Byte>, ghost dch: seq<nat>) returns (ok: bool, q: FileObject?)
    requires Opened(fp, dch, dirSect, dirOfs) && fp.Home() && (fp.fs.g.fatType == Fat32 ==> 0 < fsiSector < fp.fs.g.fatbase)
    requires buf.Length == 512 && buf != fp.fs.win
    modifies fp, fp.buf, fp.fs, fp.fs.win
    ensures ok ==> q != null && fresh(q) && Opened(q, dch, dirSect, dirOfs)
    ensures ok ==> old(fp.fptr) <= |old(fp.Contents())| && q.Contents() == old(fp.Contents())[..old(fp.fptr)]
    ensures fp.fs.Tried() && (!ok ==> !fp.canWrite || fp.fs.errors > old(fp.fs.errors))
  {
    hide InDirectory, Named, FileObject.Layout, FileObject.Buffered, FileObject.StoredElsewhere, FileObject.StoredHere, FileObject.Positioned,
      Volume.Shape, Volume.Decoded, Volume.WindowCoherent, Volume.DiskCoherent, Volume.MirrorCoherent, DataFits;
    q := null;
    var res := TruncateOpened(fp, dch, dirSect, dirOfs, fsiSector);
    ok := res == Ok;
    if ok {
      ok, q := SyncAndOpen(fp, dirSect, dirOfs, fsiSector, time, buf, dch);
    }
  }
}
