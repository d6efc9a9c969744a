/** Making a volume and a file durable: sync, f_sync, and what a later mount and f_open read back. */
module FatSync {
  import opened Basics
  import opened FatCodec
  import opened FatVolume
  import opened FatChains
  import opened FatSectors
  import opened FatFile
  import opened FatFileTheory

  const AM_ARC: nat := 0x20

  /** The FSInfo sector that sync writes. */
  function FsInfo(free: Dword, last: Dword): (s: Sector)
  {
    var z: seq<Byte> := Zeros(512);
    StoreDword(StoreDword(StoreDword(StoreDword(StoreWord(z, 510, 0xAA55), 0, 0x4161_5252), 484, 0x6141_7272), 488, free), 492, last)
  }

  /** What chk_mounted takes from the FSInfo sector, if its marks are right. */
  function FsInfoCounts(s: Sector): (r: (bool, Dword, Dword))
  {
    (LoadWord(s, 510) == 0xAA55 && LoadDword(s, 0) == 0x4161_5252 && LoadDword(s, 484) == 0x6141_7272, LoadDword(s, 488), LoadDword(s, 492))
  }

  /** The bytes of the FSInfo sector. */
  lemma FsInfoLayout(free: Dword, last: Dword)
    ensures var s := FsInfo(free, last);
            && s[0..4] == [0x52, 0x52, 0x61, 0x41] && s[484..488] == [0x72, 0x72, 0x41, 0x61]
            && DwordAt(s, 488, free) && DwordAt(s, 492, last) && s[510..512] == [0x55, 0xAA]
            && forall i :: 4 <= i < 484 || 496 <= i < 510 ==> s[i] == 0
  {
    hide StoreDword, StoreWord;
    var z: seq<Byte> := Zeros(512);
    var a := StoreWord(z, 510, 0xAA55);
    var b := StoreDword(a, 0, 0x4161_5252);
    var c := StoreDword(b, 484, 0x6141_7272);
    var d := StoreDword(c, 488, free);
    var s := StoreDword(d, 492, last);
    WordReadsBack(z, 510, 0xAA55);
    DwordReadsBack(a, 0, 0x4161_5252);
    DwordReadsBack(b, 484, 0x6141_7272);
    DwordReadsBack(c, 488, free);
    DwordReadsBack(d, 492, last);
    MarksAre(s);
    StoredInOrder(s, 488, 0);
    StoredInOrder(s, 492, 0);
  }

  /** The marks of an FSInfo sector, as bytes. */
  lemma MarksAre(s: Sector)
    ensures LoadDword(s, 0) == 0x4161_5252 <==> s[0..4] == [0x52, 0x52, 0x61, 0x41]
    ensures LoadDword(s, 484) == 0x6141_7272 <==> s[484..488] == [0x72, 0x72, 0x41, 0x61]
    ensures LoadWord(s, 510) == 0xAA55 <==> s[510..512] == [0x55, 0xAA]
  {
    FourBytes(s, 0, 0x52, 0x52, 0x61, 0x41);
    FourBytes(s, 484, 0x72, 0x72, 0x41, 0x61);
    assert s[510..512] == [s[510], s[511]];
  }

  lemma FourBytes(s: Sector, a: nat, b0: Byte, b1: Byte, b2: Byte, b3: Byte)
    requires a + 4 <= 512
    ensures s[a..a + 4] == [b0, b1, b2, b3] <==> LoadDword(s, a) == b0 as int + 0x100 * b1 as int + 0x1_0000 * b2 as int + 0x100_0000 * b3 as int
  {
    assert s[a..a + 4] == [s[a], s[a + 1], s[a + 2], s[a + 3]];
    var x0, x1, x2, x3 := s[a] as int, s[a + 1] as int, s[a + 2] as int, s[a + 3] as int;
    SameDigit(x2, x3, b2, b3);
    SameDigit(x1, x2 + 0x100 * x3, b1, b2 as int + 0x100 * b3 as int);
    SameDigit(x0, x1 + 0x100 * (x2 + 0x100 * x3), b0, b1 as int + 0x100 * (b2 as int + 0x100 * b3 as int));
  }

  lemma SameDigit(x: Byte, y: nat, u: Byte, v: nat)
    ensures x as int + 0x100 * y == u as int + 0x100 * v <==> x == u && y == v
  {
  }

  /** What a mount takes from an FSInfo sector. */
  lemma CountsLayout(s: Sector)
    ensures FsInfoCounts(s).0 <==> s[0..4] == [0x52, 0x52, 0x61, 0x41] && s[484..488] == [0x72, 0x72, 0x41, 0x61] && s[510..512] == [0x55, 0xAA]
    ensures DwordAt(s, 488, FsInfoCounts(s).1) && DwordAt(s, 492, FsInfoCounts(s).2)
  {
    MarksAre(s);
    StoredInOrder(s, 488, 0);
    StoredInOrder(s, 492, 0);
  }

  /** A mount gets the free count and the last cluster back that sync has written. */
  lemma FsInfoRoundTrip(free: Dword, last: Dword)
    ensures FsInfoCounts(FsInfo(free, last)) == (true, free, last)
  {
    hide StoreDword, StoreWord;
    var z: seq<Byte> := Zeros(512);
    var a := StoreWord(z, 510, 0xAA55);
    var b := StoreDword(a, 0, 0x4161_5252);
    var c := StoreDword(b, 484, 0x6141_7272);
    var d := StoreDword(c, 488, free);
    WordReadsBack(z, 510, 0xAA55);
    DwordReadsBack(a, 0, 0x4161_5252);
    DwordReadsBack(b, 484, 0x6141_7272);
    DwordReadsBack(c, 488, free);
    DwordReadsBack(d, 492, last);
  }

  /** The free count that a mount takes from the FSInfo sector: an unknown one if its marks are not right. */
  function MountedFree(s: Sector): Dword {
    if FsInfoCounts(s).0 then FsInfoCounts(s).1 else 0xFFFF_FFFF
  }

  /** On FAT32 the FSInfo sector has the free count, unless it is marked as to be written. */
  ghost predicate Counted(fs: Volume, fsiSector: nat)
    reads fs
  {
    fs.g.fatType == Fat32 ==> InfoShows(fs.data, fsiSector, fs.fsiFlag, fs.freeClust)
  }

  ghost predicate InfoShows(d: seq<Sector>, fsiSector: nat, pending: bool, free: Dword) {
    fsiSector < |d| && (!pending ==> MountedFree(d[fsiSector]) == free)
  }

  /** A change of another sector does not matter. */
  lemma InfoStays(d: seq<Sector>, fsiSector: nat, pending: bool, free: Dword, x: nat, v: Sector)
    requires InfoShows(d, fsiSector, pending, free) && x < |d| && x != fsiSector
    ensures InfoShows(d[x := v], fsiSector, pending, free)
  {
  }

  /** Nothing is left to write back: outside the second FAT the disk holds the logical volume, and unless a
      write to it has failed, the second FAT equals the first. */
  lemma CleanMeansWritten(fs: Volume)
    requires fs.Valid() && !fs.wflag
    ensures |fs.disk| == |fs.data| == fs.sectors
    ensures forall s: nat :: s < fs.sectors && !InMirror(fs.g, s) && !InFat(fs.g, s) ==> fs.disk[s] == fs.data[s]
    ensures !fs.mirrorLost && fs.g.nFats == 2 ==>
              forall s: nat :: InFat(fs.g, s) ==> s + fs.g.fsize < |fs.disk| && s < |fs.disk| && fs.disk[s + fs.g.fsize] == fs.disk[s]
  {
    hide DataFits, Links, ImageSector;
  }

  /** sync: writes the dirty window back, and on FAT32 the FSInfo sector; a failure of the latter is ignored. */
  method Sync(fs: Volume, fsiSector: nat) returns (ok: bool)
    requires fs.Valid() && (fs.g.fatType == Fat32 ==> 0 < fsiSector < fs.g.fatbase)
    modifies fs`disk, fs`faults, fs`winsect, fs`wflag, fs`errors, fs`mirrorLost, fs.win, fs`data, fs`fsiFlag
    ensures fs.Valid() && (ok ==> !fs.wflag) && (!ok ==> fs.errors > old(fs.errors)) && fs.Tried()
    ensures old(fs.FailsNext()) && old(fs.wflag) ==> !ok && fs.wflag && fs.disk == old(fs.disk)
    ensures fs.data == old(fs.data)
         || (fs.g.fatType == Fat32 && old(fs.fsiFlag) && fsiSector < |old(fs.data)|
             && fs.data == old(fs.data)[fsiSector := FsInfo(fs.freeClust, fs.lastClust)])
    ensures ok && fs.errors == old(fs.errors) && fs.g.fatType == Fat32 && old(fs.fsiFlag) ==>
              fsiSector < |fs.data| && fs.data[fsiSector] == FsInfo(fs.freeClust, fs.lastClust) && !fs.fsiFlag
    ensures fs.winsect == old(fs.winsect) || fs.winsect == 0
    ensures ok && fs.errors == old(fs.errors) && fs.g.fatType == Fat32 ==> !fs.fsiFlag
    ensures old(Counted(fs, fsiSector)) && fs.errors == old(fs.errors) ==> Counted(fs, fsiSector)
    ensures old(fs.g.fatType == Fat32 && !fs.wflag && fs.fsiFlag && fs.faults == [true]) ==> ok && !fs.fsiFlag && fs.data == old(fs.data)
    ensures old(!fs.wflag && !(fs.g.fatType == Fat32 && fs.fsiFlag) && fs.FailsNext()) ==> !ok
  {
    hide Volume.Shape, Volume.Decoded, Volume.WindowCoherent, Volume.DiskCoherent, Volume.MirrorCoherent, DataFits, FsInfo, FsInfoCounts;
    FsInfoRoundTrip(fs.freeClust, fs.lastClust);
    ok := fs.MoveWindow(0);
    if ok {
      WindowClean(fs);
      if fs.g.fatType == Fat32 && fs.fsiFlag {
        WriteInfo(fs, fsiSector);
      }
      ok := fs.TakeOutcome(true);
    }
  }

  /** A sync that reports success and has lost the free count, because the disk has refused the FSInfo sector. */
  method InfoLost(fs: Volume, fsiSector: nat) returns (ok: bool)
    requires fs.Valid() && fs.g.fatType == Fat32 && 0 < fsiSector < fs.g.fatbase && fsiSector < |fs.data|
    requires !fs.wflag && fs.fsiFlag && fs.faults == [true] && MountedFree(fs.data[fsiSector]) != fs.freeClust
    modifies fs`disk, fs`faults, fs`winsect, fs`wflag, fs`errors, fs`mirrorLost, fs.win, fs`data, fs`fsiFlag
    ensures ok && !fs.fsiFlag && !Counted(fs, fsiSector)
  {
    ok := Sync(fs, fsiSector);
  }

  lemma WindowClean(fs: Volume)
    requires fs.Valid()
    ensures fs.winsect == 0 ==> !fs.wflag
  {
    hide Volume.Decoded, Volume.DiskCoherent, Volume.MirrorCoherent, DataFits;
  }

  /** The part of sync that writes the FSInfo sector through the window, which then shows no sector. */
  method WriteInfo(fs: Volume, fsiSector: nat)
    requires fs.Valid() && !fs.wflag && 0 < fsiSector < fs.g.fatbase
    modifies fs`disk, fs`faults, fs`winsect, fs`errors, fs.win, fs`data, fs`fsiFlag
    ensures fs.Valid() && !fs.fsiFlag && fs.Tried() && fs.winsect == 0
    ensures fs.data == old(fs.data)
         || (fsiSector < |old(fs.data)| && fs.data == old(fs.data)[fsiSector := FsInfo(fs.freeClust, fs.lastClust)])
    ensures fs.errors == old(fs.errors) ==> fsiSector < |fs.data| && fs.data[fsiSector] == FsInfo(fs.freeClust, fs.lastClust)
    ensures old(fs.FailsNext()) ==> fs.data == old(fs.data)
    ensures fs.faults == if old(fs.faults) == [] then [] else old(fs.faults)[1..]
  {
    hide DataFits, Links, ImageSector, FsInfo;
    InfoToWindow(fs);
    ghost var info := FsInfo(fs.freeClust, fs.lastClust);
    var done := fs.DiskWrite(fs.win[..], fsiSector);
    if done {
      fs.data := fs.data[fsiSector := info];
    }
    fs.fsiFlag := false;
  }

  /** The FSInfo sector in the window, which then shows no sector. */
  method InfoToWindow(fs: Volume)
    requires fs.Valid() && !fs.wflag
    modifies fs`winsect, fs.win
    ensures fs.Valid() && fs.winsect == 0 && fs.win[..] == FsInfo(fs.freeClust, fs.lastClust)
  {
    hide DataFits, Links, ImageSector, FsInfo;
    fs.winsect := 0;
    var info := FsInfo(fs.freeClust, fs.lastClust);
    forall i | 0 <= i < 512 { fs.win[i] := info[i]; }
    assert fs.win[..] == info;
  }

  // ---------- files ----------

  /** Every sector of a list holds its part of the bytes. */
  ghost predicate AllStored(d: seq<Sector>, s: seq<nat>, b: seq<Byte>) {
    |b| == 512 * |s| && forall k: nat :: k < |s| ==> s[k] < |d| && d[s[k]] == ImageSector(b, k)
  }

  lemma StoredIsGathered(d: seq<Sector>, s: seq<nat>, b: seq<Byte>)
    requires AllStored(d, s, b)
    ensures InDisk(d, s) && Gather(d, s) == b
  {
    hide Gather;
    forall k: nat | k < |s|
      ensures ImageSector(Gather(d, s), k) == ImageSector(b, k)
    {
      GatherAt(d, s, k);
    }
    SameSectors(Gather(d, s), b, |s|);
  }

  /** The 32 bytes of a directory entry after f_sync. */
  function SyncedEntry(e: seq<Byte>, size: Dword, clust: nat, time: Dword): (r: seq<Byte>)
    requires |e| == 32
    ensures |r| == 32
  {
    var a: seq<Byte> := e[11 := if e[11] / AM_ARC % 2 == 1 then e[11] else e[11] + AM_ARC];
    StoreDword(StoreWord(StoreWord(StoreDword(a, 28, size), 26, clust % 0x1_0000), 20, clust / 0x1_0000), 22, time)
  }

  /** What f_open takes from an entry: the size and the start cluster. */
  function OpenedFrom(e: seq<Byte>): (r: (Dword, Dword))
    requires |e| == 32
  {
    (LoadDword(e, 28), LoadWord(e, 26) + 0x1_0000 * LoadWord(e, 20))
  }

  /** The entry r differs from e in the archive bit of byte 11, which is set, in the first cluster, the time and the
      size. */
  ghost predicate EntryBytes(e: seq<Byte>, r: seq<Byte>, size: nat, clust: nat, time: nat) {
    && |e| == |r| == 32 && (forall i :: 0 <= i < 11 || 12 <= i < 20 ==> r[i] == e[i])
    && r[11] as int == (if e[11] as int / 0x20 % 2 == 1 then e[11] as int else e[11] as int + 0x20)
    && WordAt(r, 20, clust / 0x1_0000) && DwordAt(r, 22, time) && WordAt(r, 26, clust % 0x1_0000) && DwordAt(r, 28, size)
  }

  /** The bytes that f_open takes the size and the start cluster from. */
  lemma OpenedLayout(e: seq<Byte>)
    requires |e| == 32
    ensures DwordAt(e, 28, OpenedFrom(e).0) && WordAt(e, 26, OpenedFrom(e).1 % 0x1_0000) && WordAt(e, 20, OpenedFrom(e).1 / 0x1_0000)
  {
    StoredInOrder(e, 28, 0);
    StoredInOrder(e, 26, 0);
    StoredInOrder(e, 20, 0);
  }

  lemma EntryRoundTrip(e: seq<Byte>, size: Dword, clust: Dword, time: Dword)
    requires |e| == 32
    ensures OpenedFrom(SyncedEntry(e, size, clust, time)) == (size, clust)
    ensures EntryBytes(e, SyncedEntry(e, size, clust, time), size, clust, time)
  {
    hide StoreDword, StoreWord, LoadWord, LoadDword;
    var a: seq<Byte> := e[11 := if e[11] / AM_ARC % 2 == 1 then e[11] else e[11] + AM_ARC];
    FieldsStored(a, size, clust, time);
    assert clust == clust % 0x1_0000 + 0x1_0000 * (clust / 0x1_0000);
  }

  /** The four fields that f_sync stores are apart from each other. */
  lemma FieldsStored(a: seq<Byte>, size: Dword, clust: Dword, time: Dword)
    requires |a| == 32
    ensures var r := StoreDword(StoreWord(StoreWord(StoreDword(a, 28, size), 26, clust % 0x1_0000), 20, clust / 0x1_0000), 22, time);
            && (forall i :: 0 <= i < 20 ==> r[i] == a[i])
            && LoadDword(r, 28) == size && LoadWord(r, 26) == clust % 0x1_0000 && LoadWord(r, 20) == clust / 0x1_0000
            && WordAt(r, 20, clust / 0x1_0000) && DwordAt(r, 22, time) && WordAt(r, 26, clust % 0x1_0000) && DwordAt(r, 28, size)
  {
    hide StoreDword, StoreWord;
    var b := StoreDword(a, 28, size);
    var c := StoreWord(b, 26, clust % 0x1_0000);
    var d := StoreWord(c, 20, clust / 0x1_0000);
    DwordReadsBack(a, 28, size);
    WordReadsBack(b, 26, clust % 0x1_0000);
    WordReadsBack(c, 20, clust / 0x1_0000);
    DwordReadsBack(d, 22, time);
  }

  lemma CleanIsStored(fp: FileObject)
    requires fp.Coherent() && !fp.dirty
    ensures AllStored(fp.fs.data, fp.Sects(), fp.bytes) && BufferStored(fp.fs.data, fp.dsect, fp.buf[..])
  {
    hide FileSectors, ImageSector, Volume.Valid;
    fp.CleanStored();
  }

  ghost predicate BufferStored(d: seq<Sector>, s: nat, b: seq<Byte>) {
    s != 0 ==> s < |d| && d[s] == b
  }

  lemma StoredIsClean(fp: FileObject)
    requires fp.fs.Valid() && 2 <= fp.fs.g.nFatent && fp.Layout() && fp.Buffered() && !fp.dirty
    requires AllStored(fp.fs.data, fp.Sects(), fp.bytes) && BufferStored(fp.fs.data, fp.dsect, fp.buf[..])
    ensures fp.Coherent()
  {
    hide FileSectors, ImageSector, Volume.Valid;
  }

  /** A change of one sector keeps what is stored in others. */
  lemma StoredElsewhereKept(d: seq<Sector>, s: seq<nat>, b: seq<Byte>, x: nat, v: Sector)
    requires AllStored(d, s, b) && x < |d| && x !in s
    ensures AllStored(d[x := v], s, b)
  {
    hide ImageSector;
  }

  /** The place of a directory entry that belongs to no sector of the file. */
  ghost predicate EntryPlace(fp: FileObject, dirSect: nat, dirOfs: nat)
    requires 2 <= fp.fs.g.nFatent
    reads fp
  {
    DataSector(fp.fs.g, dirSect) && dirSect < fp.fs.sectors && dirSect !in fp.Sects() && dirSect != fp.dsect && dirOfs + 32 <= 512
  }

  /** What f_sync does to the sector of the directory entry: the entry opens as the file it now names, nothing else of it
      changes but the archive bit and the time, and the other bytes stay. */
  ghost predicate EntryStored(s0: Sector, s1: Sector, o: nat, size: nat, clust: nat, time: nat)
    requires o + 32 <= 512
  {
    && OpenedFrom(s1[o..o + 32]) == (size, clust) && EntryBytes(s0[o..o + 32], s1[o..o + 32], size, clust, time)
    && s1[..o] == s0[..o] && s1[o + 32..] == s0[o + 32..]
  }

  lemma SyncedInPlace(s0: Sector, o: nat, size: Dword, clust: Dword, time: Dword)
    requires o + 32 <= 512
    ensures EntryStored(s0, Splice(s0, o, SyncedEntry(s0[o..o + 32], size, clust, time)), o, size, clust, time)
  {
    hide SyncedEntry, OpenedFrom, EntryBytes;
    var e := SyncedEntry(s0[o..o + 32], size, clust, time);
    EntryRoundTrip(s0[o..o + 32], size, clust, time);
    var s1 := Splice(s0, o, e);
    assert s1[o..o + 32] == e;
    assert s1[..o] == s0[..o];
    assert s1[o + 32..] == s0[o + 32..];
  }

  lemma StartFits(fp: FileObject)
    requires fp.Coherent()
    ensures fp.orgClust < 0x1_0000_0000
  {
    hide FileSectors, ImageSector, FileObject.Buffered, FileObject.StoredElsewhere, FileObject.StoredHere, Volume.Decoded, Volume.WindowCoherent, Volume.DiskCoherent, Volume.MirrorCoherent;
    fp.fs.Bounds();
    fp.NotEmptyChain();
  }

  /** The part of f_sync that puts what changes of a file into its directory entry, in the window. */
  method PutEntry(fp: FileObject, dirSect: nat, dirOfs: nat, time: Dword) returns (ok: bool)
    requires fp.Valid() && EntryPlace(fp, dirSect, dirOfs) && !fp.dirty
    modifies fp.fs`disk, fp.fs`faults, fp.fs`winsect, fp.fs`wflag, fp.fs`errors, fp.fs`mirrorLost, fp.fs.win, fp.fs`data
    ensures fp.fs.Valid() && fp.fs.Tried() && (!ok ==> fp.fs.errors > old(fp.fs.errors) && fp.fs.data == old(fp.fs.data))
    ensures ok ==> fp.fs.wflag && fp.fs.winsect == dirSect && fp.Layout() && fp.Buffered()
    ensures ok ==> AllStored(fp.fs.data, fp.Sects(), fp.bytes) && BufferStored(fp.fs.data, fp.dsect, fp.buf[..])
    ensures ok ==> dirSect < |old(fp.fs.data)| && dirSect < |fp.fs.data|
                   && EntryStored(old(fp.fs.data)[dirSect], fp.fs.data[dirSect], dirOfs, fp.fsize, fp.orgClust, time)
    ensures ok ==> dirSect < |fp.fs.data| && fp.fs.data == old(fp.fs.data)[dirSect := fp.fs.data[dirSect]]
    ensures old(fp.fs.winsect) == dirSect ==> ok && fp.fs.disk == old(fp.fs.disk) && fp.fs.faults == old(fp.fs.faults)
  {
    hide FileSectors, ImageSector, IsChain, FileObject.Buffered, FileObject.StoredElsewhere, FileObject.StoredHere, FileObject.Positioned,
      Volume.Shape, Volume.Decoded, Volume.WindowCoherent, Volume.DiskCoherent, Volume.MirrorCoherent, DataFits, EntryStored, AllStored, SyncedEntry, Splice;
    CleanIsStored(fp);
    StartFits(fp);
    ghost var s, b, d1 := fp.Sects(), fp.bytes, fp.fs.data;
    ok := fp.fs.MoveWindow(dirSect);
    if !ok { return; }
    fp.fs.WindowShows();
    var entry := fp.fs.win[dirOfs..dirOfs + 32];
    fp.fs.PokeData(dirOfs, SyncedEntry(entry, fp.fsize, fp.orgClust, time));
    assert entry == d1[dirSect][dirOfs..dirOfs + 32];
    SyncedInPlace(d1[dirSect], dirOfs, fp.fsize, fp.orgClust, time);
    StoredElsewhereKept(d1, s, b, dirSect, fp.fs.data[dirSect]);
  }

  /** The part of f_sync before sync: the buffer and the entry. */
  method PutFile(fp: FileObject, dirSect: nat, dirOfs: nat, time: Dword, ghost fsiSector: nat) returns (ok: bool)
    requires fp.Valid() && EntryPlace(fp, dirSect, dirOfs) && (fp.fs.g.fatType == Fat32 ==> 0 < fsiSector < fp.fs.g.fatbase)
    modifies fp`dirty
    modifies fp.fs`disk, fp.fs`faults, fp.fs`winsect, fp.fs`wflag, fp.fs`errors, fp.fs`mirrorLost, fp.fs.win, fp.fs`data
    ensures fp.fs.Valid() && fp.fs.Tried() && (!ok ==> fp.fs.errors > old(fp.fs.errors))
    ensures ok ==> !fp.dirty && fp.fs.wflag && fp.fs.winsect == dirSect && fp.Layout() && fp.Buffered()
    ensures ok ==> AllStored(fp.fs.data, fp.Sects(), fp.bytes) && BufferStored(fp.fs.data, fp.dsect, fp.buf[..])
    ensures ok ==> dirSect < |old(fp.fs.data)| && dirSect < |fp.fs.data|
                   && EntryStored(old(fp.fs.data)[dirSect], fp.fs.data[dirSect], dirOfs, fp.fsize, fp.orgClust, time)
    ensures ok && old(Counted(fp.fs, fsiSector)) ==> Counted(fp.fs, fsiSector)
    ensures !old(fp.dirty) && old(fp.fs.winsect) == dirSect ==> ok && fp.fs.disk == old(fp.fs.disk) && fp.fs.faults == old(fp.fs.faults)
  {
    hide InfoShows, FileSectors, ImageSector, IsChain, FileObject.Buffered, FileObject.StoredElsewhere, FileObject.StoredHere, FileObject.Positioned,
      Volume.Shape, Volume.Decoded, Volume.WindowCoherent, Volume.DiskCoherent, Volume.MirrorCoherent, DataFits, EntryStored, AllStored, BufferStored;
    ghost var d0 := fp.fs.data;
    ok := true;
    if fp.dirty {
      ok := fp.Flush();
      if !ok { return; }
      if fp.fs.g.fatType == Fat32 && InfoShows(d0, fsiSector, fp.fs.fsiFlag, fp.fs.freeClust) {
        InfoStays(d0, fsiSector, fp.fs.fsiFlag, fp.fs.freeClust, fp.dsect, fp.buf[..]);
      }
    }
    ghost var d1 := fp.fs.data;
    ok := PutEntry(fp, dirSect, dirOfs, time);
    if ok && fp.fs.g.fatType == Fat32 && InfoShows(d1, fsiSector, fp.fs.fsiFlag, fp.fs.freeClust) {
      InfoStays(d1, fsiSector, fp.fs.fsiFlag, fp.fs.freeClust, dirSect, fp.fs.data[dirSect]);
    }
  }

  /** f_sync. On a file marked as written it can fail with the mark set or with the mark cleared. When it is cleared
      nothing is left in the buffer, and on the logical volume the bytes of the file are stored and its entry names
      its size and its first cluster; on success the window is written, too. On a file that is not marked the call
      reports success and does nothing: so does a second call after one that has failed with the mark cleared. */
  method SyncFile(fp: FileObject, dirSect: nat, dirOfs: nat, fsiSector: nat, time: Dword) returns (ok: bool)
    requires fp.Valid() && EntryPlace(fp, dirSect, dirOfs)
    requires fp.fs.g.fatType == Fat32 ==> 0 < fsiSector < fp.fs.g.fatbase
    modifies fp`dirty, fp`written
    modifies fp.fs`disk, fp.fs`faults, fp.fs`winsect, fp.fs`wflag, fp.fs`errors, fp.fs`mirrorLost, fp.fs.win, fp.fs`data, fp.fs`fsiFlag
    ensures fp.fs.Valid() && (!fp.written ==> fp.Valid())
    ensures !old(fp.written) ==> ok && !fp.written && fp.dirty == old(fp.dirty) && fp.fs.disk == old(fp.fs.disk) && fp.fs.data == old(fp.fs.data)
    ensures !old(fp.written) ==> fp.fs.winsect == old(fp.fs.winsect) && fp.fs.wflag == old(fp.fs.wflag) && fp.fs.errors == old(fp.fs.errors)
    ensures !ok ==> old(fp.written) && fp.fs.errors > old(fp.fs.errors)
    ensures ok ==> !fp.written && (old(fp.written) ==> !fp.fs.wflag)
    ensures old(fp.written) && !fp.written ==> !fp.dirty && InDisk(fp.fs.data, fp.Sects()) && Gather(fp.fs.data, fp.Sects()) == fp.bytes
    ensures old(fp.written) && !fp.written ==>
              && dirSect < |old(fp.fs.data)| && dirSect < |fp.fs.data|
              && EntryStored(old(fp.fs.data)[dirSect], fp.fs.data[dirSect], dirOfs, fp.fsize, fp.orgClust, time)
    ensures ok && old(fp.written) && fp.fs.errors == old(fp.fs.errors) && fp.fs.g.fatType == Fat32 ==> !fp.fs.fsiFlag
    ensures old(Counted(fp.fs, fsiSector)) && fp.fs.errors == old(fp.fs.errors) ==> Counted(fp.fs, fsiSector)
    ensures old(fp.written && !fp.dirty && fp.fs.winsect == dirSect && fp.fs.FailsNext()) ==>
              !ok && !fp.written && fp.fs.wflag && fp.fs.disk == old(fp.fs.disk)
    ensures fp.fs.Tried()
  {
    hide Counted, InfoShows, FileSectors, ImageSector, IsChain, FileObject.Buffered, FileObject.StoredElsewhere, FileObject.StoredHere, FileObject.Positioned,
      Volume.Shape, Volume.Decoded, Volume.WindowCoherent, Volume.DiskCoherent, Volume.MirrorCoherent, DataFits, EntryStored, AllStored, FsInfo, Gather, InDisk;
    ok := true;
    if fp.written {
      ChainSectors(fp.fs, fp.chain);
      ok := PutFile(fp, dirSect, dirOfs, time, fsiSector);
      if !ok { return; }
      ghost var d2 := fp.fs.data;
      fp.written := false;
      ok := Sync(fp.fs, fsiSector);
      if fp.fs.data != d2 {
        StoredElsewhereKept(d2, fp.Sects(), fp.bytes, fsiSector, fp.fs.data[fsiSector]);
      }
      StoredIsClean(fp);
      StoredIsGathered(fp.fs.data, fp.Sects(), fp.bytes);
    }
  }

  /** f_sync twice, when the disk refuses the first write of the window: the second call reports success, though
      nothing has been written to the disk and the directory entry still waits in the window. */
  method SyncTwice(fp: FileObject, dirSect: nat, dirOfs: nat, fsiSector: nat, time: Dword) returns (first: bool, second: bool)
    requires fp.Valid() && EntryPlace(fp, dirSect, dirOfs) && (fp.fs.g.fatType == Fat32 ==> 0 < fsiSector < fp.fs.g.fatbase)
    requires fp.written && !fp.dirty && fp.fs.winsect == dirSect && fp.fs.FailsNext()
    modifies fp`dirty, fp`written
    modifies fp.fs`disk, fp.fs`faults, fp.fs`winsect, fp.fs`wflag, fp.fs`errors, fp.fs`mirrorLost, fp.fs.win, fp.fs`data, fp.fs`fsiFlag
    ensures !first && second && fp.fs.wflag && fp.fs.disk == old(fp.fs.disk)
  {
    hide FileSectors, EntryStored, InDisk, Gather, FileObject.Coherent, FileObject.Positioned, Volume.Valid;
    first := SyncFile(fp, dirSect, dirOfs, fsiSector, time);
    second := SyncFile(fp, dirSect, dirOfs, fsiSector, time);
  }

  /** f_open on the entry of a file that has just been synchronized: the new file object has its contents. */
  method OpenAgain(fp: FileObject, dirSect: nat, dirOfs: nat, buf: array<Byte>) returns (ok: bool, q: FileObject?)
    requires fp.Valid() && EntryPlace(fp, dirSect, dirOfs) && buf.Length == 512 && buf != fp.fs.win
    requires InDisk(fp.fs.data, fp.Sects()) && Gather(fp.fs.data, fp.Sects()) == fp.bytes && dirSect < |fp.fs.data|
    requires OpenedFrom(fp.fs.data[dirSect][dirOfs..dirOfs + 32]) == (fp.fsize, fp.orgClust)
    modifies fp.fs`disk, fp.fs`faults, fp.fs`winsect, fp.fs`wflag, fp.fs`errors, fp.fs`mirrorLost, fp.fs.win
    ensures fp.fs.Valid() && (ok <==> q != null)
    ensures ok ==> q.Valid() && q.fs == fp.fs && q.fptr == 0 && !q.dirty && q.Contents() == fp.Contents()
    ensures fp.fs.Tried() && (!ok ==> fp.fs.errors > old(fp.fs.errors))
  {
    hide FileSectors, ImageSector, IsChain, FileObject.Buffered, FileObject.StoredElsewhere, FileObject.StoredHere, FileObject.Positioned,
      Volume.Shape, Volume.Decoded, Volume.WindowCoherent, Volume.DiskCoherent, Volume.MirrorCoherent, DataFits, Gather, InDisk, OpenedFrom;
    q := null;
    ok := fp.fs.MoveWindow(dirSect);
    if ok {
      fp.fs.WindowShows();
      var start := OpenedFrom(fp.fs.win[dirOfs..dirOfs + 32]);
      q := new FileObject(fp.fs, buf, fp.canRead, fp.canWrite, start.1, start.0, fp.chain);
    }
  }
}
