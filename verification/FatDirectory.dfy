/** Directory objects of FatFs: positions in a table that is a cluster chain or the static root directory,
    and finding, registering and removing names through the window. */
module FatDirectory {
  import opened Basics
  import opened FatCodec
  import opened FatVolume
  import opened FatChains
  import opened FatSectors
  import opened FatAllocator
  import opened FatFileTheory
  import opened FatEntries

  /** The static root directory lies between the FAT copies and the end of the disk. */
  predicate RootFits(g: Geometry, sectors: nat) {
    && g.nRootdir % 16 == 0
    && g.fatbase + (if g.nFats == 2 then 2 * g.fsize else g.fsize) <= g.dirbase
    && g.dirbase + g.nRootdir / 16 <= sectors
  }

  /** The sectors of a table: those of its chain, or of the static root directory. */
  function TableSectors(g: Geometry, chain: seq<nat>): seq<nat>
    requires 2 <= g.nFatent
  {
    if chain == [] then Run(g.dirbase, g.nRootdir / 16) else FileSectors(g, chain)
  }

  class Dir {
    const fs: Volume
    var sclust: nat
    var index: nat
    var clust: nat
    var sect: nat
    var dir: nat      // offset of the entry in the window

    ghost var chain: seq<nat>   // the clusters of a dynamic table
    ghost var ci: nat           // index of clust in the chain

    ghost function Sects(): seq<nat>
      requires 2 <= fs.g.nFatent
      reads this`chain
    {
      TableSectors(fs.g, chain)
    }

    /** The first cluster of the table, 0 for the static one. */
    function Start(): nat
      reads this`sclust
    {
      if sclust == 0 && fs.g.fatType == Fat32 then fs.g.dirbase else sclust
    }

    ghost predicate Layout()
      reads this`sclust, this`chain, fs, fs.win
    {
      && fs.Valid() && 2 <= fs.g.nFatent
      && (chain == [] ==> Start() == 0 && fs.g.fatType != Fat32 && RootFits(fs.g, fs.sectors))
      && (chain != [] ==> IsChain(fs.fat, chain) && chain[0] == Start())
    }

    /** A directory object for the table that starts at cluster sclust, 0 for the root directory. */
    constructor (fs: Volume, sclust: nat, ghost chain: seq<nat>)
      requires fs.Valid() && 2 <= fs.g.nFatent
      requires var start := if sclust == 0 && fs.g.fatType == Fat32 then fs.g.dirbase else sclust;
               if chain == [] then start == 0 && fs.g.fatType != Fat32 && RootFits(fs.g, fs.sectors)
               else IsChain(fs.fat, chain) && chain[0] == start
      ensures Layout() && this.fs == fs && this.sclust == sclust && this.chain == chain
    {
      this.fs, this.sclust, this.chain := fs, sclust, chain;
    }

    /** Distinct sectors of the data part of the volume. */
    ghost predicate Placed()
      requires 2 <= fs.g.nFatent
      reads this`chain, fs`data
    {
      && Distinct(Sects()) && InDisk(fs.data, Sects()) && |fs.data| == fs.sectors
      && forall s :: s in Sects() ==> DataSector(fs.g, s) && s < fs.sectors && !InMirror(fs.g, s)
    }

    lemma SectorsPlaced()
      requires Layout()
      ensures Placed() && fs.g.csize >= 1
    {
      hide FileSectors, Volume.Decoded, Volume.WindowCoherent, Volume.DiskCoherent, Volume.MirrorCoherent;
      if chain != [] {
        ChainIsAcyclic(fs.fat, chain);
        FileSectorsInside(fs.g, fs.sectors, chain);
        FileSectorsDistinct(fs.g, chain);
        InDiskIntro(fs.data, FileSectors(fs.g, chain));
      }
    }

    /** The entries of the table. */
    ghost function Table(): seq<Entry>
      requires 2 <= fs.g.nFatent && InDisk(fs.data, Sects())
      reads this`chain, fs`data
    {
      TableOf(fs.data, Sects())
    }

    /** The directory object stands on entry k. */
    ghost predicate At(k: nat)
      requires 2 <= fs.g.nFatent
      reads this`index, this`clust, this`sect, this`dir, this`chain, this`ci
    {
      && index == k < 0x1_0000 && k / 16 < |Sects()| && sect == Sects()[k / 16] && dir == 32 * (k % 16)
      && InTable(k / 16)
    }

    /** clust is the cluster of sector j of the table, 0 in the static one. */
    ghost predicate InTable(j: nat)
      reads this`clust, this`chain, this`ci
    {
      if chain == [] then clust == 0
      else ci < |chain| && clust == chain[ci] && ci * fs.g.csize <= j < ci * fs.g.csize + fs.g.csize
    }

    /** dir_sdi: moves to an entry by its index. */
    method SetIndex(idx: nat) returns (res: FResult)
      requires Layout() && idx < 0x1_0000
      modifies this`index, this`clust, this`sect, this`dir, this`ci
      modifies fs`disk, fs`faults, fs`winsect, fs`wflag, fs`errors, fs`mirrorLost, fs.win
      ensures Layout() && index == idx
      ensures res == Ok ==> At(idx)
      ensures res != Ok ==> (res == IntErr && idx >= 16 * |Sects()|) || (res == DiskErr && fs.errors > old(fs.errors))
      ensures fs.Tried()
    {
      hide FileSectors, TableSectors, IsChain, Volume.Shape, Volume.Decoded, Volume.WindowCoherent, Volume.DiskCoherent, Volume.MirrorCoherent, DataFits;
      index := idx;
      var clst := sclust;
      StartInRange();
      if clst == 1 || clst >= fs.g.nFatent { return IntErr; }
      if clst == 0 && fs.g.fatType == Fat32 { clst := fs.g.dirbase; }
      if clst == 0 {
        StaticSectors();
        clust := clst;
        if idx >= fs.g.nRootdir { return IntErr; }
        sect := fs.g.dirbase + idx / 16;
        dir := idx % 16 * 32;
        res := Ok;
      } else {
        res := FollowTo(clst, idx);
      }
    }

    lemma StartInRange()
      requires Layout()
      ensures if chain == [] then sclust == 0 && Start() == 0 else 2 <= Start() < fs.g.nFatent && (sclust == 0 || sclust == Start())
      ensures sclust != 1 && sclust < fs.g.nFatent
    {
      hide Volume.Shape, Volume.Decoded, Volume.WindowCoherent, Volume.DiskCoherent, Volume.MirrorCoherent, DataFits;
      if chain != [] {
        FirstOfChain(fs.fat, chain);
      }
    }

    lemma StaticSectors()
      requires 2 <= fs.g.nFatent && chain == [] && RootFits(fs.g, fs.sectors)
      ensures |Sects()| == fs.g.nRootdir / 16 && 16 * |Sects()| == fs.g.nRootdir
      ensures forall j :: 0 <= j < |Sects()| ==> Sects()[j] == fs.g.dirbase + j
    {
    }

    /** The part of dir_sdi for a dynamic table. */
    method FollowTo(start: nat, idx: nat) returns (res: FResult)
      requires Layout() && chain != [] && start == chain[0] && index == idx < 0x1_0000
      modifies this`clust, this`sect, this`dir, this`ci
      modifies fs`disk, fs`faults, fs`winsect, fs`wflag, fs`errors, fs`mirrorLost, fs.win
      ensures Layout()
      ensures res == Ok ==> At(idx)
      ensures res != Ok ==> (res == IntErr && idx >= 16 * |Sects()|) || (res == DiskErr && fs.errors > old(fs.errors))
      ensures fs.Tried()
    {
      hide FileSectors, IsChain, Clust2Sect, Volume.Shape, Volume.Decoded, Volume.WindowCoherent, Volume.DiskCoherent, Volume.MirrorCoherent, DataFits;
      fs.Bounds();
      SectorsPlaced();
      FileSectorsLength(fs.g, chain);
      var ic := 16 * fs.g.csize;
      var clst: nat, rest: nat := start, idx;
      ghost var q := 0;
      while rest >= ic
        invariant Layout() && q < |chain| && clst == chain[q] && idx == q * ic + rest && fs.Tried()
        invariant fs.g.csize >= 1
        decreases rest
      {
        LastInChain(fs.fat, chain, q);
        NextStart(q, ic, |chain|, rest, fs.g.csize);
        clst := fs.GetFat(clst);
        if clst == DISK_ERROR { return DiskErr; }
        if clst < 2 || clst >= fs.g.nFatent { return IntErr; }
        rest := rest - ic;
        q := q + 1;
      }
      SlotPlace(idx, q, rest, fs.g.csize);
      FileSectorAt(fs.g, chain, q, rest / 16);
      clust := clst;
      ci := q;
      sect := Clust2Sect(fs.g, clst) + rest / 16;
      dir := rest % 16 * 32;
      res := Ok;
    }

    /** Since the table s0, the chain ch0 and the data d0 the chain has got a cluster filled with zero. */
    ghost predicate Stretched(s0: Space, ch0: seq<nat>, d0: seq<Sector>)
      requires 2 <= fs.g.nFatent
      reads this`chain, fs`fat, fs`freeClust, fs`data
    {
      && ch0 != [] && |chain| == |ch0| + 1 && Grown(s0, ch0, SpaceOf(fs), chain) && OnlyChanged(d0, fs.data, Sects())
      && InDisk(d0, TableSectors(fs.g, ch0)) && InDisk(fs.data, Sects())
      && Table() == TableOf(d0, TableSectors(fs.g, ch0)) + ZeroEntries(16 * fs.g.csize)
    }

    /** dir_next: moves to the next entry. At the end of the table it reports that, or, when it may, stretches
        a dynamic table by a cluster filled with zero. */
    method Next(stretch: bool) returns (res: FResult)
      requires Layout() && At(index)
      modifies this`index, this`clust, this`sect, this`dir, this`ci, this`chain
      modifies fs`disk, fs`faults, fs`winsect, fs`wflag, fs`errors, fs`mirrorLost, fs.win, fs`data
      modifies fs`image, fs`fat, fs`freeClust, fs`lastClust, fs`fsiFlag
      ensures fs.Valid() && fs.Noted()
      ensures res == Ok ==> Layout() && At(old(index) + 1)
      ensures res == Ok ==> chain == old(chain) || stretch
      ensures res == Ok && chain == old(chain) ==> SpaceOf(fs) == old(SpaceOf(fs)) && fs.data == old(fs.data)
      ensures res == Ok && chain != old(chain) ==> old(index) + 1 == 16 * |old(Sects())| && Stretched(old(SpaceOf(fs)), old(chain), old(fs.data))
      ensures res == NoFile || res == Denied ==>
                Layout() && chain == old(chain) && SpaceOf(fs) == old(SpaceOf(fs)) && fs.data == old(fs.data)
      ensures res == NoFile ==> old(index) + 1 == 0x1_0000 || (old(index) + 1 >= 16 * |Sects()| && (stretch ==> chain == []))
      ensures res == Denied ==> stretch && old(index) + 1 >= 16 * |Sects()| && NoneIsFree(fs.fat)
      ensures fs.Tried() && (!stretch ==> res != IntErr && res != Denied)
      ensures res == NoFile || res == Denied || Explained(res, fs.errors > old(fs.errors), old(fs.fat), fs.fat)
    {
      hide HasOne, FileSectors, TableSectors, IsChain, Stretched, NoneIsFree, Volume.Shape, Volume.Decoded, Volume.WindowCoherent, Volume.DiskCoherent, Volume.MirrorCoherent, DataFits;
      SectorsPlaced();
      assert Sects()[index / 16] in Sects();
      NextSlot(index);
      var i := if index + 1 == 0x1_0000 then 0 else index + 1;
      if i == 0 || sect == 0 { return NoFile; }
      res := Ok;
      if i % 16 == 0 {
        res := NextSector(i, stretch);
        if res != Ok { return; }
      }
      index := i;
      dir := i % 16 * 32;
    }

    /** The part of dir_next for an entry i that begins a sector. */
    method NextSector(i: nat, stretch: bool) returns (res: FResult)
      requires Layout() && At(index) && i == index + 1 < 0x1_0000 && i % 16 == 0 && i / 16 == index / 16 + 1
      modifies this`clust, this`sect, this`ci, this`chain
      modifies fs`disk, fs`faults, fs`winsect, fs`wflag, fs`errors, fs`mirrorLost, fs.win, fs`data
      modifies fs`image, fs`fat, fs`freeClust, fs`lastClust, fs`fsiFlag
      ensures fs.Valid() && fs.Noted()
      ensures res == Ok ==> Layout() && i / 16 < |Sects()| && sect == Sects()[i / 16] && InTable(i / 16)
      ensures res == Ok ==> chain == old(chain) || stretch
      ensures res == Ok && chain == old(chain) ==> SpaceOf(fs) == old(SpaceOf(fs)) && fs.data == old(fs.data)
      ensures res == Ok && chain != old(chain) ==> i == 16 * |old(Sects())| && Stretched(old(SpaceOf(fs)), old(chain), old(fs.data))
      ensures res == NoFile || res == Denied ==>
                Layout() && chain == old(chain) && SpaceOf(fs) == old(SpaceOf(fs)) && fs.data == old(fs.data)
      ensures res == NoFile ==> i >= 16 * |Sects()| && (stretch ==> chain == [])
      ensures res == Denied ==> stretch && i >= 16 * |Sects()| && NoneIsFree(fs.fat)
      ensures fs.Tried() && (!stretch ==> res != IntErr && res != Denied)
      ensures res == NoFile || res == Denied || Explained(res, fs.errors > old(fs.errors), old(fs.fat), fs.fat)
    {
      hide HasOne, FileSectors, IsChain, Stretched, NoneIsFree, Volume.Shape, Volume.Decoded, Volume.WindowCoherent, Volume.DiskCoherent, Volume.MirrorCoherent, DataFits;
      SectorsPlaced();
      ClusterOrStatic();
      sect := sect + 1;
      res := Ok;
      if clust == 0 {
        StaticSectors();
        if i >= fs.g.nRootdir { return NoFile; }
      } else {
        OffsetInCluster(i / 16, ci, fs.g.csize);
        if i / 16 % fs.g.csize == 0 {
          FirstOfCluster(i / 16, ci + 1);
          res := NextCluster(stretch);
          if res == Ok {
            FirstOfCluster(i / 16, ci);
          }
        } else {
          SameCluster(i / 16);
        }
      }
    }

    lemma ClusterOrStatic()
      requires Layout() && InTable(index / 16)
      ensures if chain == [] then clust == 0 else clust == chain[ci] && 2 <= clust
    {
      hide Volume.Shape, Volume.Decoded, Volume.WindowCoherent, Volume.DiskCoherent, Volume.MirrorCoherent, DataFits;
      if chain != [] {
        LastInChain(fs.fat, chain, ci);
      }
    }

    /** Two sectors of one cluster follow each other. */
    lemma SameCluster(j: nat)
      requires 2 <= fs.g.nFatent && chain != [] && ci < |chain| && ci * fs.g.csize < j < ci * fs.g.csize + fs.g.csize
      ensures j < |Sects()| && Sects()[j] == Sects()[j - 1] + 1
    {
      hide FileSectors, Clust2Sect;
      FileSectorAt(fs.g, chain, ci, j - ci * fs.g.csize);
      FileSectorAt(fs.g, chain, ci, j - 1 - ci * fs.g.csize);
    }

    /** Sector j begins cluster q of the table, if there is one. */
    lemma FirstOfCluster(j: nat, q: nat)
      requires 2 <= fs.g.nFatent && fs.g.csize >= 1 && chain != [] && q <= |chain| && j == q * fs.g.csize
      ensures if q == |chain| then j == |Sects()| else j < |Sects()| && Sects()[j] == Clust2Sect(fs.g, chain[q])
      ensures j < q * fs.g.csize + fs.g.csize
    {
      hide FileSectors, Clust2Sect;
      FileSectorsLength(fs.g, chain);
      if q < |chain| {
        FileSectorAt(fs.g, chain, q, 0);
      }
    }

    /** The part of dir_next that goes to the next cluster of a dynamic table. */
    method NextCluster(stretch: bool) returns (res: FResult)
      requires Layout() && chain != [] && ci < |chain| && clust == chain[ci]
      modifies this`clust, this`sect, this`ci, this`chain
      modifies fs`disk, fs`faults, fs`winsect, fs`wflag, fs`errors, fs`mirrorLost, fs.win, fs`data
      modifies fs`image, fs`fat, fs`freeClust, fs`lastClust, fs`fsiFlag
      ensures fs.Valid() && fs.Noted()
      ensures res == Ok ==> Layout() && chain != [] && ci == old(ci) + 1 < |chain| && clust == chain[ci] && sect == Clust2Sect(fs.g, clust)
      ensures res == Ok ==> chain == old(chain) || stretch
      ensures res == Ok && chain == old(chain) ==> SpaceOf(fs) == old(SpaceOf(fs)) && fs.data == old(fs.data)
      ensures res == Ok && chain != old(chain) ==> ci == |old(chain)| && Stretched(old(SpaceOf(fs)), old(chain), old(fs.data))
      ensures res == NoFile || res == Denied ==>
                Layout() && chain == old(chain) && SpaceOf(fs) == old(SpaceOf(fs)) && fs.data == old(fs.data)
      ensures res == NoFile ==> ci + 1 == |chain| && !stretch && ci == old(ci)
      ensures res == Denied ==> stretch && ci + 1 == |chain| && NoneIsFree(fs.fat) && ci == old(ci)
      ensures fs.Tried() && (!stretch ==> res != IntErr && res != Denied)
      ensures res == NoFile || res == Denied || Explained(res, fs.errors > old(fs.errors), old(fs.fat), fs.fat)
    {
      hide HasOne, FileSectors, TableSectors, IsChain, Stretched, NoneIsFree, Volume.Shape, Volume.Decoded, Volume.WindowCoherent, Volume.DiskCoherent, Volume.MirrorCoherent, DataFits;
      fs.Bounds();
      LastInChain(fs.fat, chain, ci);
      var clst := fs.GetFat(clust);
      if clst <= 1 { return IntErr; }
      if clst == DISK_ERROR { return DiskErr; }
      res := Ok;
      if clst >= fs.g.nFatent {
        if !stretch { return NoFile; }
        res, clst := Stretch();
        if res != Ok { return; }
      }
      clust := clst;
      ci := ci + 1;
      sect := Clust2Sect(fs.g, clst);
    }

    lemma NewClusterInside(f: Fat, ch: seq<nat>, c: nat)
      requires fs.Valid() && IsChain(f, ch + [c]) && |f| == fs.g.nFatent && 2 <= fs.g.nFatent && fs.g.csize >= 1
      ensures fs.g.fatbase + (if fs.g.nFats == 2 then 2 * fs.g.fsize else fs.g.fsize) <= Clust2Sect(fs.g, c)
      ensures Clust2Sect(fs.g, c) + fs.g.csize <= fs.sectors
    {
      hide Clust2Sect, Volume.Decoded, Volume.WindowCoherent, Volume.DiskCoherent, Volume.MirrorCoherent;
      assert (ch + [c])[|ch|] == c;
      assert InRange(f, c);
      ClusterInside(fs.g, fs.sectors, c, 0);
    }

    lemma StretchedNow(s0: Space, ch0: seq<nat>, d0: seq<Sector>, c: nat)
      requires fs.Valid() && 2 <= fs.g.nFatent && fs.g.csize >= 1 && ch0 != [] && chain == ch0 + [c] && IsChain(fs.fat, chain)
      requires Grown(s0, ch0, SpaceOf(fs), chain) && |d0| == fs.sectors && InDisk(d0, TableSectors(fs.g, ch0))
      requires fs.data == Cleared(d0, Clust2Sect(fs.g, c), fs.g.csize)
      ensures Stretched(s0, ch0, d0)
    {
      hide FileSectors, IsChain, Grown, CountIsRight, Clust2Sect, Cleared, Volume.Decoded, Volume.WindowCoherent, Volume.DiskCoherent, Volume.MirrorCoherent;
      FileSectorsAppend(fs.g, ch0, c);
      var t0, t1 := FileSectors(fs.g, ch0), ClusterSectors(fs.g, c);
      ChainSectors(fs, chain);
      AppendedApart(t0, t1);
      InDiskBoth(fs.data, t0, t1);
      forall k: nat | k < |d0|
        ensures k in t1 <==> Clust2Sect(fs.g, c) <= k < Clust2Sect(fs.g, c) + fs.g.csize
      {
        InClusterSectors(fs.g, c, k);
      }
      TableStretched(d0, t0, fs.data, t1);
    }

    /** The part of dir_next that adds a cluster at the end of the table and fills it with zero. An unreadable
        link does no harm here, since the cluster is the last one. */
    method Stretch() returns (res: FResult, clst: nat)
      requires Layout() && chain != [] && ci + 1 == |chain| && clust == chain[ci]
      modifies this`chain
      modifies fs`disk, fs`faults, fs`winsect, fs`wflag, fs`errors, fs`mirrorLost, fs.win, fs`data
      modifies fs`image, fs`fat, fs`freeClust, fs`lastClust, fs`fsiFlag
      ensures fs.Valid() && fs.Noted()
      ensures res == Ok ==> Layout() && chain == old(chain) + [clst] && Stretched(old(SpaceOf(fs)), old(chain), old(fs.data))
      ensures res == Denied ==> Layout() && chain == old(chain) && SpaceOf(fs) == old(SpaceOf(fs)) && fs.data == old(fs.data) && NoneIsFree(fs.fat)
      ensures fs.Tried() && (res == Denied || Explained(res, fs.errors > old(fs.errors), old(fs.fat), fs.fat))
    {
      hide HasOne, FileSectors, TableSectors, IsChain, Created, Grown, CountIsRight, Stretched, NoneIsFree, Volume.Shape, Volume.Decoded, Volume.WindowCoherent, Volume.DiskCoherent, Volume.MirrorCoherent, DataFits, Truncate, Cleared;
      fs.Bounds();
      SectorsPlaced();
      ghost var s0, end, d0, ch0 := SpaceOf(fs), EndValue(fs.g), fs.data, chain;
      ghost var strayed;
      LastInChain(fs.fat, chain, ci);
      clst, strayed := CreateChain(fs, clust);
      CreateExplained(s0.fat, fs.fat, clust, clst, end, strayed, fs.errors > old(fs.errors));
      if strayed {
        ChainStrayed(s0.fat, fs.fat, chain, ci, clst, end);
      }
      if clst == 0 {
        ChainFull(s0, SpaceOf(fs), chain, ci, end);
        return Denied, clst;
      }
      if clst == 1 { return IntErr, clst; }
      if clst == DISK_ERROR { return DiskErr, clst; }
      ChainFollowed(s0, SpaceOf(fs), chain, ci, clst, end);
      var ok := fs.MoveWindow(0);
      if !ok { return DiskErr, clst; }
      NewClusterInside(fs.fat, chain, clst);
      ok := fs.ClearRun(Clust2Sect(fs.g, clst), fs.g.csize);
      if !ok { return DiskErr, clst; }
      res := Ok;
      chain := chain + [clst];
      StretchedNow(s0, ch0, d0, clst);
    }

    /** From the first entry on, k times dir_next. */
    method Walk(k: nat) returns (res: FResult)
      requires Layout() && k < 0x1_0000
      modifies this`index, this`clust, this`sect, this`dir, this`ci, this`chain
      modifies fs`disk, fs`faults, fs`winsect, fs`wflag, fs`errors, fs`mirrorLost, fs.win, fs`data
      modifies fs`image, fs`fat, fs`freeClust, fs`lastClust, fs`fsiFlag
      ensures fs.Valid()
      ensures res != DiskErr ==> Layout() && chain == old(chain) && SpaceOf(fs) == old(SpaceOf(fs)) && fs.data == old(fs.data)
      ensures res == Ok ==> At(k)
      ensures res != Ok ==> ((res == NoFile || res == IntErr) && k >= 16 * |Sects()|) || (res == DiskErr && fs.errors > old(fs.errors))
    {
      hide InTable, FileSectors, TableSectors, IsChain, Stretched, NoneIsFree, CountIsRight, Volume.Shape, Volume.Decoded, Volume.WindowCoherent, Volume.DiskCoherent, Volume.MirrorCoherent, DataFits;
      res := SetIndex(0);
      if res != Ok { return; }
      var n := 0;
      while n < k
        invariant Layout() && n <= k && At(n) && fs.Tried()
        invariant chain == old(chain) && SpaceOf(fs) == old(SpaceOf(fs)) && fs.data == old(fs.data)
      {
        res := Next(false);
        if res != Ok { return; }
        n := n + 1;
      }
      res := Ok;
    }

    // ---------- names ----------

    /** Moves the window to the sector of the current entry, and reads the entry. */
    method Look() returns (ok: bool, e: Entry)
      requires Layout() && At(index)
      modifies fs`disk, fs`faults, fs`winsect, fs`wflag, fs`errors, fs`mirrorLost, fs.win
      ensures Layout() && InDisk(fs.data, Sects()) && index < |Table()|
      ensures ok ==> e == Table()[index] && fs.winsect == sect && sect != 0 && !InFat(fs.g, sect)
      ensures fs.Tried() && (!ok ==> fs.errors > old(fs.errors))
    {
      hide FileSectors, TableSectors, IsChain, Volume.Shape, Volume.Decoded, Volume.WindowCoherent, Volume.DiskCoherent, Volume.MirrorCoherent, DataFits, TableOf;
      SectorsPlaced();
      assert Sects()[index / 16] in Sects();
      TableAt(fs.data, Sects(), index / 16, index % 16);
      ok := fs.MoveWindow(sect);
      e := NewEntry(seq(11, i => 0));
      if ok {
        fs.WindowShows();
        e := fs.win[dir..dir + 32];
      }
    }

    /** dir_find: on success the directory object stands on the first entry of the name; the table has none if
        none is found among its first 65536 entries. */
    method Find(fn: Name) returns (res: FResult)
      requires Layout()
      modifies this`index, this`clust, this`sect, this`dir, this`ci, this`chain
      modifies fs`disk, fs`faults, fs`winsect, fs`wflag, fs`errors, fs`mirrorLost, fs.win, fs`data
      modifies fs`image, fs`fat, fs`freeClust, fs`lastClust, fs`fsiFlag
      ensures fs.Valid() && fs.Noted()
      ensures res == Ok || res == NoFile ==>
                Layout() && InDisk(fs.data, Sects()) && chain == old(chain) && fs.data == old(fs.data) && SpaceOf(fs) == old(SpaceOf(fs))
      ensures res == Ok ==> At(index) && fs.winsect == sect
      ensures res == Ok || res == NoFile ==> Answered(Table(), fn, res == Ok, index)
      ensures res == Ok || res == NoFile || (res == IntErr && old(Sects()) == []) || (res == DiskErr && fs.errors > old(fs.errors))
    {
      hide HasOne, Answered, InTable, FileSectors, TableSectors, IsChain, Stretched, TableOf, Lookup, Seen, Unmatched, CountIsRight, RootFits, Volume.Shape, Volume.Decoded, Volume.WindowCoherent, Volume.DiskCoherent, Volume.MirrorCoherent, DataFits;
      res := SetIndex(0);
      if res != Ok { return; }
      SectorsPlaced();
      NothingYet(Table(), fn);
      var more := true;
      while more
        invariant fs.Valid() && fs.Tried() && fs.Noted()
        invariant res == Ok || res == NoFile ==>
                    Layout() && InDisk(fs.data, Sects()) && chain == old(chain) && fs.data == old(fs.data) && SpaceOf(fs) == old(SpaceOf(fs))
        invariant if more then res == Ok && At(index) && Unmatched(Table(), fn, index)
                  else (res == Ok ==> At(index) && fs.winsect == sect) && (res == Ok || res == NoFile ==> Answered(Table(), fn, res == Ok, index))
        invariant res == Ok || res == NoFile || (res == DiskErr && fs.errors > old(fs.errors))
        decreases more, 0x1_0000 - index
      {
        res, more := FindHere(fn);
      }
    }

    /** One round of the loop of dir_find: more tells that the next entry is to be looked at. */
    method FindHere(fn: Name) returns (res: FResult, more: bool)
      requires Layout() && At(index) && InDisk(fs.data, Sects()) && Unmatched(Table(), fn, index)
      modifies this`index, this`clust, this`sect, this`dir, this`ci, this`chain
      modifies fs`disk, fs`faults, fs`winsect, fs`wflag, fs`errors, fs`mirrorLost, fs.win, fs`data
      modifies fs`image, fs`fat, fs`freeClust, fs`lastClust, fs`fsiFlag
      ensures fs.Valid() && fs.Tried() && fs.Noted()
      ensures res == Ok || res == NoFile ==>
                Layout() && InDisk(fs.data, Sects()) && chain == old(chain) && fs.data == old(fs.data) && SpaceOf(fs) == old(SpaceOf(fs))
      ensures more ==> res == Ok && At(index) && index == old(index) + 1 < 0x1_0000 && Unmatched(Table(), fn, index)
      ensures !more && res == Ok ==> At(index) && fs.winsect == sect
      ensures !more && (res == Ok || res == NoFile) ==> Answered(Table(), fn, res == Ok, index)
      ensures res == Ok || res == NoFile || (res == DiskErr && fs.errors > old(fs.errors))
    {
      hide HasOne, Answered, InTable, FileSectors, TableSectors, IsChain, Stretched, TableOf, Lookup, Seen, Unmatched, CountIsRight, RootFits, Volume.Shape, Volume.Decoded, Volume.WindowCoherent, Volume.DiskCoherent, Volume.MirrorCoherent, DataFits;
      more := false;
      var ok, e := Look();
      if !ok { return DiskErr, false; }
      SearchOn(Table(), fn, index);
      if e[0] == 0 { return NoFile, false; }
      if e[11] / AM_VOL % 2 == 0 && e[..11] == fn { return Ok, false; }
      ghost var k := index;
      res := Next(false);
      if res == NoFile {
        SearchOver(Table(), fn, k + 1, index);
      }
      more := res == Ok;
    }

    /** dir_register: the name is written over the first entry that is free, in a table that has been
        stretched by a cluster if there was none. */
    method Register(fn: Name) returns (res: FResult)
      requires Layout()
      modifies this`index, this`clust, this`sect, this`dir, this`ci, this`chain
      modifies fs`disk, fs`faults, fs`winsect, fs`wflag, fs`errors, fs`mirrorLost, fs.win, fs`data
      modifies fs`image, fs`fat, fs`freeClust, fs`lastClust, fs`fsiFlag
      ensures fs.Valid() && fs.Noted()
      ensures res == Ok ==> Layout() && At(index) && InDisk(fs.data, Sects()) && InDisk(old(fs.data), old(Sects()))
      ensures res == Ok ==> Registered(old(Table()), fn) && Grown(old(SpaceOf(fs)), old(chain), SpaceOf(fs), chain)
      ensures res == Ok ==> OnlyChanged(old(fs.data), fs.data, Sects())
      ensures res == Denied ==> NoneIsFree(fs.fat)
      ensures res == Denied || res == NoFile ==> Layout() && chain == old(chain) && fs.data == old(fs.data) && SpaceOf(fs) == old(SpaceOf(fs))
      ensures res == NoFile ==> InDisk(fs.data, Sects()) && NoneBlank(Seen(Table())) && (chain == [] || |Table()| >= 0x1_0000)
      ensures fs.Tried()
      ensures res == Ok || res == NoFile || res == Denied || (res == IntErr && (old(Sects()) == [] || HasOne(old(fs.fat)))) || (res == DiskErr && fs.errors > old(fs.errors))
    {
      hide HasOne, FileSectors, TableSectors, IsChain, Stretched, TableOf, Grown, CountIsRight, OnlyChanged, NoneIsFree, Volume.Shape, Volume.Decoded, Volume.WindowCoherent, Volume.DiskCoherent, Volume.MirrorCoherent, DataFits;
      SectorsPlaced();
      ghost var t0 := Table();
      res := FindBlank();
      if res != Ok { return; }
      ghost var t1, d1 := Table(), fs.data;
      var ok, _ := Look();
      if !ok { return DiskErr; }
      WriteEntry(fn);
      OnlyChangedTransitive(old(fs.data), d1, fs.data, Sects());
    }

    /** Since the table was t0 it may have been stretched by a cluster, and the name has been written to its
        first free entry, where the directory object stands. */
    ghost predicate Registered(t0: seq<Entry>, fn: Name)
      requires 2 <= fs.g.nFatent && InDisk(fs.data, Sects())
      reads this`chain, this`index, fs`data
    {
      var n := |Table()| - |t0|;
      && (n == 0 || n == 16 * fs.g.csize) && index == FirstBlank(t0 + ZeroEntries(n)) < |t0| + n
      && Table() == (t0 + ZeroEntries(n))[index := NewEntry(fn)]
    }

    /** The search of dir_register for a free entry, with table stretch. */
    method FindBlank() returns (res: FResult)
      requires Layout() && InDisk(fs.data, Sects())
      modifies this`index, this`clust, this`sect, this`dir, this`ci, this`chain
      modifies fs`disk, fs`faults, fs`winsect, fs`wflag, fs`errors, fs`mirrorLost, fs.win, fs`data
      modifies fs`image, fs`fat, fs`freeClust, fs`lastClust, fs`fsiFlag
      ensures fs.Valid() && fs.Noted()
      ensures res == Ok ==> Layout() && At(index) && InDisk(fs.data, Sects()) && Extended(old(Table()))
      ensures res == Ok ==> index == FirstBlank(Table()) < |Table()|
      ensures res == Ok ==> Grown(old(SpaceOf(fs)), old(chain), SpaceOf(fs), chain) && OnlyChanged(old(fs.data), fs.data, Sects())
      ensures res == Denied ==> NoneIsFree(fs.fat)
      ensures res == Denied || res == NoFile ==> Layout() && chain == old(chain) && fs.data == old(fs.data) && SpaceOf(fs) == old(SpaceOf(fs))
      ensures res == NoFile ==> InDisk(fs.data, Sects()) && NoneBlank(Seen(Table())) && (chain == [] || |Table()| >= 0x1_0000)
      ensures fs.Tried()
      ensures res == Ok || res == NoFile || res == Denied || (res == IntErr && (old(Sects()) == [] || HasOne(old(fs.fat)))) || (res == DiskErr && fs.errors > old(fs.errors))
    {
      hide HasOne, InTable, FileSectors, TableSectors, IsChain, Stretched, Extended, TableOf, Grown, CountIsRight, OnlyChanged, NoneIsFree, FirstBlank, Used, NoneBlank, Seen, RootFits, Volume.Shape, Volume.Decoded, Volume.WindowCoherent, Volume.DiskCoherent, Volume.MirrorCoherent, DataFits;
      res := SetIndex(0);
      if res != Ok { return; }
      GrownReflexive(SpaceOf(fs), chain);
      OnlyChangedReflexive(fs.data, Sects());
      NoExtension(Table());
      ghost var t0, stretched := Table(), false;
      NothingYet(t0, seq(11, i => 0));
      while true
        invariant Layout() && At(index) && InDisk(fs.data, Sects()) && Extended(t0) && fs.Tried() && fs.Noted()
        invariant !stretched ==> chain == old(chain) && fs.data == old(fs.data) && SpaceOf(fs) == old(SpaceOf(fs)) && Table() == t0
        invariant stretched ==> index == |t0| < |Table()| && Table()[index][0] == 0
        invariant Grown(old(SpaceOf(fs)), old(chain), SpaceOf(fs), chain) && OnlyChanged(old(fs.data), fs.data, Sects())
        invariant Used(Table(), index)
        decreases 0x1_0000 - index
      {
        var ok, blank := LookBlank();
        if !ok { return DiskErr; }
        if blank { return Ok; }
        res := PassEntry(t0);
        if res != Ok { return; }
        stretched := chain != old(chain);
      }
    }

    /** Looks whether the current entry is free. */
    method LookBlank() returns (ok: bool, blank: bool)
      requires Layout() && At(index) && InDisk(fs.data, Sects()) && Used(Table(), index)
      modifies fs`disk, fs`faults, fs`winsect, fs`wflag, fs`errors, fs`mirrorLost, fs.win
      ensures Layout() && fs.Tried() && (!ok ==> fs.errors > old(fs.errors)) && index < |Table()|
      ensures ok && blank ==> index == FirstBlank(Table())
      ensures ok && !blank ==> !Blank(Table()[index]) && Table()[index][0] != 0
    {
      hide FileSectors, TableSectors, IsChain, TableOf, FirstBlank, Used, RootFits, Volume.Shape, Volume.Decoded, Volume.WindowCoherent, Volume.DiskCoherent, Volume.MirrorCoherent, DataFits;
      var e;
      ok, e := Look();
      blank := ok && (e[0] == DELETED || e[0] == 0);
      if blank {
        UsedTo(Table(), index);
      }
    }

    /** Goes on to the next entry, which is a zero one if the table had to be stretched for it. */
    method PassEntry(ghost t0: seq<Entry>) returns (res: FResult)
      requires Layout() && At(index) && InDisk(fs.data, Sects()) && t0 == Table() && Used(t0, index) && index < |t0| && !Blank(t0[index])
      modifies this`index, this`clust, this`sect, this`dir, this`ci, this`chain
      modifies fs`disk, fs`faults, fs`winsect, fs`wflag, fs`errors, fs`mirrorLost, fs.win, fs`data
      modifies fs`image, fs`fat, fs`freeClust, fs`lastClust, fs`fsiFlag
      ensures fs.Valid() && fs.Noted()
      ensures res == Ok ==> Layout() && At(index) && index == old(index) + 1 && InDisk(fs.data, Sects()) && Extended(t0) && Used(Table(), index)
      ensures res == Ok && chain == old(chain) ==> fs.data == old(fs.data) && SpaceOf(fs) == old(SpaceOf(fs))
      ensures res == Ok && chain != old(chain) ==> index == |t0| < |Table()| && Table()[index][0] == 0
      ensures res == Ok ==> Grown(old(SpaceOf(fs)), old(chain), SpaceOf(fs), chain) && OnlyChanged(old(fs.data), fs.data, Sects())
      ensures res == Denied ==> NoneIsFree(fs.fat)
      ensures res == Denied || res == NoFile ==> Layout() && chain == old(chain) && fs.data == old(fs.data) && SpaceOf(fs) == old(SpaceOf(fs))
      ensures res == NoFile ==> InDisk(fs.data, Sects()) && NoneBlank(Seen(Table())) && (chain == [] || |Table()| >= 0x1_0000)
      ensures fs.Tried()
      ensures res == Ok || res == NoFile || res == Denied || (res == IntErr && HasOne(old(fs.fat))) || (res == DiskErr && fs.errors > old(fs.errors))
    {
      hide HasOne, InTable, FileSectors, TableSectors, IsChain, Stretched, Extended, TableOf, Grown, CountIsRight, OnlyChanged, NoneIsFree, Used, NoneBlank, Seen, RootFits, Volume.Shape, Volume.Decoded, Volume.WindowCoherent, Volume.DiskCoherent, Volume.MirrorCoherent, DataFits;
      SectorsPlaced();
      NoExtension(t0);
      GrownReflexive(SpaceOf(fs), chain);
      OnlyChangedReflexive(fs.data, Sects());
      UsedTo(t0, index);
      ghost var k := index;
      res := Next(true);
      if res == Ok {
        if chain != old(chain) {
          NowStretched(old(SpaceOf(fs)), old(chain), old(fs.data), t0);
        }
        UsedOn(t0, Table(), k);
      }
    }

    /** A stretched table: its first new entry is zero. */
    lemma NowStretched(s0: Space, ch0: seq<nat>, d0: seq<Sector>, t0: seq<Entry>)
      requires 2 <= fs.g.nFatent && 1 <= fs.g.csize && Stretched(s0, ch0, d0) && t0 == TableOf(d0, TableSectors(fs.g, ch0))
      ensures InDisk(fs.data, Sects()) && Extended(t0) && t0 <= Table() && |t0| < |Table()| && Table()[|t0|][0] == 0
      ensures Grown(s0, ch0, SpaceOf(fs), chain) && OnlyChanged(d0, fs.data, Sects()) && |t0| == 16 * |TableSectors(fs.g, ch0)|
    {
      hide TableSectors, TableOf, Grown, OnlyChanged;
    }

    /** Since the table was t0 it may have been extended by the zero entries of one cluster. */
    ghost predicate Extended(t0: seq<Entry>)
      requires 2 <= fs.g.nFatent && InDisk(fs.data, Sects())
      reads this`chain, fs`data
    {
      var n := |Table()| - |t0|;
      (n == 0 || n == 16 * fs.g.csize) && Table() == t0 + ZeroEntries(n)
    }

    lemma NoExtension(t0: seq<Entry>)
      requires 2 <= fs.g.nFatent && InDisk(fs.data, Sects()) && t0 == Table()
      ensures Extended(t0)
    {
      hide TableOf;
      assert t0 + ZeroEntries(0) == t0;
    }

    /** Clears the current entry, and puts the name into it. */
    method WriteEntry(fn: Name)
      requires Layout() && At(index) && fs.winsect == sect && sect != 0 && !InFat(fs.g, sect)
      modifies fs`wflag, fs`data, fs.win
      ensures Layout() && InDisk(fs.data, Sects()) && InDisk(old(fs.data), Sects()) && index < |old(Table())|
      ensures Table() == old(Table())[index := NewEntry(fn)] && OnlyChanged(old(fs.data), fs.data, Sects())
    {
      hide FileSectors, TableSectors, IsChain, TableOf, Volume.Shape, Volume.Decoded, Volume.WindowCoherent, Volume.DiskCoherent, Volume.MirrorCoherent, DataFits, Splice;
      SectorsPlaced();
      assert Sects()[index / 16] in Sects();
      ghost var d0 := fs.data;
      TablePoked(d0, Sects(), index, 0, seq(32, i => 0));
      fs.PokeData(dir, seq(32, i => 0));
      ghost var d1 := fs.data;
      TablePoked(d1, Sects(), index, 0, fn);
      fs.PokeData(dir, fn);
      NameInZeros(TableOf(d0, Sects())[index], fn);
    }

    /** dir_remove: the current entry is marked as deleted. */
    method Remove() returns (res: FResult)
      requires Layout() && index < 0x1_0000
      modifies this`index, this`clust, this`sect, this`dir, this`ci
      modifies fs`disk, fs`faults, fs`winsect, fs`wflag, fs`errors, fs`mirrorLost, fs.win, fs`data
      ensures fs.Valid() && index == old(index)
      ensures res == Ok ==> Layout() && At(index) && InDisk(fs.data, Sects()) && InDisk(old(fs.data), Sects()) && index < |old(Table())|
      ensures res == Ok ==> Table() == old(Table())[index := old(Table())[index][0 := 0xE5]]
      ensures res == Ok ==> OnlyChanged(old(fs.data), fs.data, Sects())
      ensures res == Ok || (res == IntErr && index >= 16 * |Sects()|) || (res == DiskErr && fs.errors > old(fs.errors))
    {
      hide FileSectors, TableSectors, IsChain, TableOf, Volume.Shape, Volume.Decoded, Volume.WindowCoherent, Volume.DiskCoherent, Volume.MirrorCoherent, DataFits, Splice;
      res := SetIndex(index);
      if res != Ok { return; }
      var ok, _ := Look();
      if !ok { return DiskErr; }
      SectorsPlaced();
      assert Sects()[index / 16] in Sects();
      TablePoked(fs.data, Sects(), index, 0, [DELETED]);
      FirstByte(TableOf(fs.data, Sects())[index]);
      fs.PokeData(dir, [DELETED]);
    }
  }

  /** No entry is free. */
  ghost predicate NoneBlank(es: seq<Entry>) {
    forall i :: 0 <= i < |es| ==> !Blank(es[i])
  }

  /** What dir_register does to the map from names to slots, for a name that is not in the table: it is found
      where it was written, every other name is found where it was, and the table stays in order. */
  lemma RegisterInserts(d: Dir, t0: seq<Entry>, fn: Name)
    requires 2 <= d.fs.g.nFatent && InDisk(d.fs.data, d.Sects()) && d.Registered(t0, fn)
    requires TailZero(t0) && NamesDiffer(t0) && Proper(fn) && Lookup(t0, fn) == None
    ensures TailZero(d.Table()) && NamesDiffer(d.Table()) && Lookup(d.Table(), fn) == Some(d.index)
    ensures forall m: Name :: Proper(m) && m != fn ==> Lookup(d.Table(), m) == Lookup(t0, m)
  {
    hide TableOf, TableSectors, TailZero, NamesDiffer, Lookup, FirstBlank;
    var n := |d.Table()| - |t0|;
    StretchKeepsMap(t0, n);
    RegisterIsInsert(t0 + ZeroEntries(n), fn, d.index);
  }

  /** dir_sdi(k) and k times dir_next from the first entry arrive at the same place, and unless the disk fails
      one reports the end of the table exactly when the other does. */
  method BothWays(a: Dir, b: Dir, k: nat) returns (stepped: FResult, jumped: FResult)
    requires a != b && a.fs == b.fs && a.Layout() && b.Layout() && a.chain == b.chain && k < 0x1_0000
    modifies a`index, a`clust, a`sect, a`dir, a`ci, a`chain, b`index, b`clust, b`sect, b`dir, b`ci
    modifies a.fs`disk, a.fs`faults, a.fs`winsect, a.fs`wflag, a.fs`errors, a.fs`mirrorLost, a.fs.win, a.fs`data
    modifies a.fs`image, a.fs`fat, a.fs`freeClust, a.fs`lastClust, a.fs`fsiFlag
    ensures stepped == Ok && jumped == Ok ==> a.index == b.index == k && a.clust == b.clust && a.sect == b.sect && a.dir == b.dir
    ensures stepped != DiskErr && jumped != DiskErr ==> (stepped == Ok <==> jumped == Ok) && (jumped == Ok <==> k < 16 * |a.Sects()|)
  {
    hide Dir.InTable, FileSectors, TableSectors, IsChain, CountIsRight, Volume.Shape, Volume.Decoded, Volume.WindowCoherent, Volume.DiskCoherent, Volume.MirrorCoherent, DataFits;
    ghost var n := |a.Sects()|;
    stepped := a.Walk(k);
    jumped := Ok;
    if stepped != DiskErr {
      jumped := b.SetIndex(k);
      b.SectorsPlaced();
      if stepped == Ok && jumped == Ok {
        OnePlace(a, b, k);
      }
      assert stepped == Ok ==> k / 16 < n;
    } else {
      jumped := DiskErr;
    }
  }

  /** Two directory objects for one table that stand on the same entry agree in every field. */
  lemma OnePlace(a: Dir, b: Dir, k: nat)
    requires a.fs == b.fs && 2 <= a.fs.g.nFatent && 1 <= a.fs.g.csize && a.chain == b.chain && a.At(k) && b.At(k)
    ensures a.index == b.index && a.clust == b.clust && a.sect == b.sect && a.dir == b.dir
  {
    hide TableSectors;
    if a.chain != [] {
      var n := a.fs.g.csize;
      QuotientUnique(a.ci, k / 16 - a.ci * n, b.ci, k / 16 - b.ci * n, n);
    }
  }

  lemma FirstByte(e: Entry)
    ensures Splice(e, 0, [DELETED]) == e[0 := DELETED]
  {
  }

  lemma NameInZeros(e: Entry, n: Name)
    ensures Splice(Splice(e, 0, seq(32, i => 0)), 0, n) == NewEntry(n)
  {
    var z: seq<Byte> := Splice(e, 0, seq(32, i => 0));
    assert forall i :: 0 <= i < 32 ==> z[i] == 0;
    assert Splice(z, 0, n)[..11] == n;
  }

  /** The entries that dir_next gets to: an index has 16 bits. */
  function Seen(t: seq<Entry>): seq<Entry> {
    if |t| > 0x1_0000 then t[..0x1_0000] else t
  }

  /** The answer of a search: entry k is what the map from names to slots has, the first entry in use that has the
      name; or the map has no slot among the first 65536 entries, none of which is such an entry. */
  ghost predicate Answered(t: seq<Entry>, n: Name, found: bool, k: nat) {
    if found then Lookup(t, n) == Some(k) && FoundAt(t, n, k)
    else Lookup(Seen(t), n) == None && forall i :: 0 <= i < |t| && i < 0x1_0000 ==> !FoundAt(t, n, i)
  }

  /** A search has come to entry k without a match. */
  ghost predicate Unmatched(t: seq<Entry>, n: Name, k: nat) {
    k <= |t| && forall i :: 0 <= i < k ==> t[i][0] != 0 && !Matches(t[i], n)
  }

  lemma NothingYet(t: seq<Entry>, n: Name)
    ensures Unmatched(t, n, 0) && Used(t, 0)
  {
  }

  lemma SearchOver(t: seq<Entry>, n: Name, k: nat, index: nat)
    requires Unmatched(t, n, k) && (k == 0x1_0000 || k >= |t| || (t[k][0] == 0 && k < 0x1_0000))
    ensures Answered(t, n, false, index)
  {
    hide IsNamed, Matches;
    LookupIs(Seen(t), n, if k <= |Seen(t)| then k else |Seen(t)|);
    LookupMeans(Seen(t), n, 0);
    forall i: nat | i < |t| && i < 0x1_0000 && FoundAt(t, n, i)
      ensures FoundAt(Seen(t), n, i)
    {
    }
  }

  lemma SearchOn(t: seq<Entry>, n: Name, k: nat)
    requires Unmatched(t, n, k) && k < |t| && k < 0x1_0000
    ensures t[k][0] == 0 ==> Answered(t, n, false, k)
    ensures t[k][0] != 0 && Matches(t[k], n) ==> Answered(t, n, true, k)
    ensures t[k][0] != 0 && !Matches(t[k], n) ==> Unmatched(t, n, k + 1)
  {
    LookupIs(t, n, k);
    LookupMeans(t, n, k);
    if t[k][0] == 0 {
      SearchOver(t, n, k, k);
    }
  }

  /** The entries before entry k are in use. */
  ghost predicate Used(t: seq<Entry>, k: nat) {
    k <= |t| && forall i :: 0 <= i < k ==> !Blank(t[i])
  }

  lemma UsedOn(t: seq<Entry>, t1: seq<Entry>, k: nat)
    requires Used(t, k) && k < |t| && !Blank(t[k]) && t <= t1
    ensures Used(t1, k + 1)
  {
  }

  lemma UsedTo(t: seq<Entry>, k: nat)
    requires Used(t, k)
    ensures k < |t| && Blank(t[k]) ==> FirstBlank(t) == k
    ensures k < |t| && !Blank(t[k]) && (k + 1 == 0x1_0000 || k + 1 >= |t|) ==> NoneBlank(Seen(t))
  {
    if k < |t| && Blank(t[k]) {
      FirstBlankIs(t, k);
    }
  }

  lemma InClusterSectors(g: Geometry, c: nat, k: nat)
    requires 2 <= g.nFatent
    ensures k in ClusterSectors(g, c) <==> Clust2Sect(g, c) <= k < Clust2Sect(g, c) + g.csize
  {
    var s := ClusterSectors(g, c);
    if Clust2Sect(g, c) <= k < Clust2Sect(g, c) + g.csize {
      assert s[k - Clust2Sect(g, c)] == k;
    }
  }

  lemma AppendedApart(a: seq<nat>, b: seq<nat>)
    requires Distinct(a + b)
    ensures forall j :: 0 <= j < |a| ==> a[j] !in b
  {
    forall i, j | 0 <= i < |a| && 0 <= j < |b|
      ensures a[i] != b[j]
    {
      assert (a + b)[i] == a[i] && (a + b)[|a| + j] == b[j];
    }
  }

  lemma InDiskBoth(d: seq<Sector>, a: seq<nat>, b: seq<nat>)
    requires InDisk(d, a + b)
    ensures InDisk(d, a) && InDisk(d, b)
  {
    assert forall j :: 0 <= j < |a| ==> (a + b)[j] == a[j];
    assert forall j :: 0 <= j < |b| ==> (a + b)[|a| + j] == b[j];
  }

  /** Entry k + 1 is in the sector of entry k or first in the next one. */
  lemma NextSlot(k: nat)
    ensures if (k + 1) % 16 == 0 then (k + 1) / 16 == k / 16 + 1 else (k + 1) / 16 == k / 16
  {
  }

  lemma NextStart(q: nat, ic: nat, n: nat, rest: nat, csize: nat)
    requires rest >= ic && ic == 16 * csize
    ensures (q + 1) * ic == q * ic + ic
    ensures q + 1 == n ==> q * ic + rest >= 16 * (n * csize)
  {
    assert (q + 1) * ic == 16 * ((q + 1) * csize);
  }

  /** Where entry k of a dynamic table is, when it is entry rest of cluster q. */
  lemma SlotPlace(k: nat, q: nat, rest: nat, n: nat)
    requires k == q * (16 * n) + rest && rest < 16 * n
    ensures k / 16 == q * n + rest / 16 && k % 16 == rest % 16 && rest / 16 < n
  {
    var x := q * n;
    assert q * (16 * n) == 16 * x;
    assert (16 * x + rest) / 16 == x + rest / 16 && (16 * x + rest) % 16 == rest % 16;
  }
}
