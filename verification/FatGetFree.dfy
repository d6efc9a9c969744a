/** f_getfree: the free-cluster count of FatFs, and when a full scan agrees with the count that the
    allocator keeps. */
module FatGetFree {
  import opened FatCodec
  import opened FatVolume
  import opened FatChains
  import opened FatSectors
  import opened FatAllocator

  /** What the scan of f_getfree counts: on FAT12 the clusters, on FAT16 and FAT32 every entry,
      also the two that belong to no cluster. */
  function Scanned(t: FatType, f: Fat): nat
    requires |f| >= 2
  {
    if t == Fat12 then FreeCount(f) else FreeFrom(f, 0)
  }

  /** The scan counts exactly the free clusters if and only if the sub-type is FAT12 or
      neither of the two reserved entries is 0. */
  lemma ScanIsExact(t: FatType, f: Fat)
    requires |f| >= 2
    ensures Scanned(t, f) == FreeCount(f) <==> t == Fat12 || (f[0] != 0 && f[1] != 0)
  {
    assert FreeFrom(f, 0) == (if f[0] == 0 then 1 else 0) + FreeFrom(f, 1);
    assert FreeFrom(f, 1) == (if f[1] == 0 then 1 else 0) + FreeFrom(f, 2);
  }

  /** A table with one taken cluster for which the scan reports one free cluster too many. */
  lemma ScanCanBeWrong()
    ensures exists f: Fat :: |f| == 3 && Scanned(Fat16, f) == FreeCount(f) + 1
  {
    var f: Fat := [0, 0xFFFF, 0xFFFF];
    assert FreeFrom(f, 3) == 0 && FreeFrom(f, 2) == 0 && FreeFrom(f, 1) == 0;
    assert |f| == 3 && Scanned(Fat16, f) == FreeCount(f) + 1;
  }

  /** f_getfree on a mounted volume. A plausible stored count is returned as it is; otherwise the table is
      scanned, and what has been counted is stored even when a disk error ended the scan early. */
  method GetFree(fs: Volume) returns (res: FResult, n: nat)
    requires fs.Valid()
    modifies fs`disk, fs`faults, fs`winsect, fs`wflag, fs`errors, fs`mirrorLost, fs.win
    modifies fs`freeClust, fs`fsiFlag
    ensures fs.Valid() && fs.Tried() && (fs.winsect == old(fs.winsect) || InFat(fs.g, fs.winsect))
    ensures fs.g.fatType == Fat32 ==> fs.Noted()
    ensures n == fs.freeClust
    ensures old(fs.freeClust) <= fs.g.nFatent - 2 ==> res == Ok && n == old(fs.freeClust)
    ensures old(fs.freeClust) > fs.g.nFatent - 2 && res == Ok ==> n == Scanned(fs.g.fatType, fs.fat)
    ensures res == DiskErr ==> fs.errors > old(fs.errors)
    ensures res == Ok || res == DiskErr || (res == IntErr && exists c :: InRange(fs.fat, c) && fs.fat[c] == 1)
  {
    hide Volume.Shape, Volume.Decoded, Volume.WindowCoherent, Volume.DiskCoherent, Volume.MirrorCoherent, DataFits;
    fs.Bounds();
    if fs.freeClust <= fs.g.nFatent - 2 {
      return Ok, fs.freeClust;
    }
    if fs.g.fatType == Fat12 {
      res, n := ScanClusters(fs);
    } else {
      res, n := ScanSectors(fs);
    }
    fs.freeClust := n;
    if fs.g.fatType == Fat32 {
      fs.fsiFlag := true;
    }
  }

  /** The FAT12 branch: one get_fat for each cluster. */
  method ScanClusters(fs: Volume) returns (res: FResult, n: nat)
    requires fs.Valid()
    modifies fs`disk, fs`faults, fs`winsect, fs`wflag, fs`errors, fs`mirrorLost, fs.win
    ensures fs.Valid() && fs.Looked()
    ensures n <= fs.g.nFatent && (res == Ok ==> n == FreeCount(fs.fat))
    ensures res == DiskErr ==> fs.errors > old(fs.errors)
    ensures res == Ok || res == DiskErr || (res == IntErr && exists c :: InRange(fs.fat, c) && fs.fat[c] == 1)
  {
    hide Volume.Shape, Volume.Decoded, Volume.WindowCoherent, Volume.DiskCoherent, Volume.MirrorCoherent, DataFits;
    fs.Bounds();
    n := 0;
    var clst := 2;
    while clst < fs.g.nFatent
      invariant fs.Valid() && fs.Looked() && 2 <= clst <= fs.g.nFatent
      invariant n + FreeFrom(fs.fat, clst) == FreeCount(fs.fat)
    {
      var stat := fs.GetFat(clst);
      if stat == DISK_ERROR { return DiskErr, n; }
      if stat == 1 { return IntErr, n; }
      if stat == 0 { n := n + 1; }
      clst := clst + 1;
    }
    res := Ok;
  }

  /** The FAT16 and FAT32 branch: walks a pointer over the sectors of the table. */
  method ScanSectors(fs: Volume) returns (res: FResult, n: nat)
    requires fs.Valid() && fs.g.fatType != Fat12
    modifies fs`disk, fs`faults, fs`winsect, fs`wflag, fs`errors, fs`mirrorLost, fs.win
    ensures fs.Valid() && fs.Looked()
    ensures n <= fs.g.nFatent && (res == Ok ==> n == FreeFrom(fs.fat, 0))
    ensures res == Ok || (res == DiskErr && fs.errors > old(fs.errors))
  {
    hide Volume.Shape, Volume.Decoded, Volume.WindowCoherent, Volume.DiskCoherent, Volume.MirrorCoherent, DataFits, FreeFrom, EntryAt;
    fs.Bounds();
    FirstEntry(fs.g.fatType);
    n := 0;
    var clst, sect, i, p := fs.g.nFatent, fs.g.fatbase, 0, 0;
    ghost var e := 0;
    var width := EntryWidth(fs.g.fatType);
    while clst > 0
      invariant fs.Valid() && fs.Looked() && 0 <= clst <= fs.g.nFatent && e == fs.g.nFatent - clst
      invariant 0 <= i <= 512 && i % 2 == 0 && (width == 4 ==> i % 4 == 0)
      invariant sect >= fs.g.fatbase && EntryAt(fs.g.fatType, e) == 512 * (sect - fs.g.fatbase) - i
      invariant i > 0 ==> p == 512 - i && sect > fs.g.fatbase && fs.winsect == sect - 1
      invariant n + FreeFrom(fs.fat, e) == FreeFrom(fs.fat, 0)
    {
      NextEntry(fs.g.fatType, fs.g.nFatent, e, fs.fat);
      if i == 0 {
        var ok := OpenFatSector(fs, sect);
        if !ok { return DiskErr, n; }
        sect := sect + 1;
        p := 0;
        i := 512;
      }
      var free := EntryInWindowIsFree(fs, p, e);
      if free { n := n + 1; }
      p := p + width;
      i := i - width;
      clst := clst - 1;
      e := e + 1;
    }
    NoneLeft(fs.fat, e);
    res := Ok;
  }

  lemma FirstEntry(t: FatType)
    ensures EntryAt(t, 0) == 0
  {
  }

  lemma NextEntry(t: FatType, n: nat, e: nat, f: Fat)
    requires t != Fat12 && e < n == |f|
    ensures EntryAt(t, e + 1) == EntryAt(t, e) + EntryWidth(t) <= FatSpan(t, n)
    ensures FreeFrom(f, e) == (if f[e] == 0 then 1 else 0) + FreeFrom(f, e + 1)
  {
  }

  lemma NoneLeft(f: Fat, e: nat)
    requires e == |f|
    ensures FreeFrom(f, e) == 0
  {
  }

  /** move_window to a sector of the table. */
  method OpenFatSector(fs: Volume, sect: nat) returns (ok: bool)
    requires fs.Valid() && fs.g.fatbase <= sect && 512 * (sect - fs.g.fatbase) < |fs.image|
    modifies fs`disk, fs`faults, fs`winsect, fs`wflag, fs`errors, fs`mirrorLost, fs.win
    ensures fs.Valid() && fs.Looked()
    ensures if ok then fs.winsect == sect else fs.errors > old(fs.errors)
  {
    ok := fs.MoveWindow(sect);
  }

  /** Reads entry e at offset p of the window. */
  method EntryInWindowIsFree(fs: Volume, p: nat, ghost e: nat) returns (free: bool)
    requires fs.Valid() && fs.g.fatType != Fat12 && e < fs.g.nFatent
    requires p + EntryWidth(fs.g.fatType) <= 512 && fs.winsect >= fs.g.fatbase
    requires EntryAt(fs.g.fatType, e) == 512 * (fs.winsect - fs.g.fatbase) + p
    ensures free <==> fs.fat[e] == 0
  {
    hide LoadWord, LoadDword, Volume.DiskCoherent, Volume.MirrorCoherent, DataFits;
    ghost var lo := 512 * (fs.winsect - fs.g.fatbase);
    LinkIsEntry(fs.image, fs.g.fatType, fs.g.nFatent, e);
    assert lo + 512 <= |fs.image| && fs.win[..] == fs.image[lo..lo + 512];
    LoadsInSlice(fs.image, lo, p);
    if fs.g.fatType == Fat16 {
      free := LoadWord(fs.win[..], p) == 0;
    } else {
      free := LoadDword(fs.win[..], p) % 0x1000_0000 == 0;
    }
  }

  /** With a count kept right by the allocator, or reserved entries that are in use, f_getfree returns
      the number of free clusters. */
  lemma GetFreeIsRight(t: FatType, f: Fat, free: Dword, n: nat)
    requires 2 <= |f| < 0x1000_0000 && CountIsRight(free, f)
    requires free <= |f| - 2 ==> n == free
    requires free > |f| - 2 ==> n == Scanned(t, f)
    ensures n == FreeCount(f) <==> (free != UNKNOWN_FREE || t == Fat12 || (f[0] != 0 && f[1] != 0))
  {
    ScanIsExact(t, f);
  }
}
