/** A mounted FatFs volume: the one-sector write-back window over a disk whose operations may fail,
    and the FAT entry accesses that go through it. */
module FatVolume {
  import opened Basics
  import opened FatCodec
  import opened FatSectors

  datatype FResult = Ok | DiskErr | IntErr | NoFile | Denied | InvalidName | NoFilesystem | NotEnoughCore

  class Volume {
    const g: Geometry
    const sectors: nat         // size of the disk
    const win: array<Byte>

    var disk: seq<Sector>
    var faults: seq<bool>      // outcomes of the coming disk operations, true for a failure; then all succeed
    var winsect: nat
    var wflag: bool
    var freeClust: Dword
    var lastClust: Dword
    var fsiFlag: bool

    // The logical volume, that is the disk overlaid by the dirty window:
    ghost var image: seq<Byte>    // the bytes of the FAT
    ghost var fat: seq<nat>       // its entries
    ghost var data: seq<Sector>   // the sectors outside the FAT

    ghost var errors: nat         // disk operations that have failed so far
    ghost var mirrorLost: bool    // a write to the second FAT has failed

    ghost predicate Valid()
      reads this`disk, this`winsect, this`wflag, this`image, this`fat, this`data, this`mirrorLost, win
    {
      Shape() && DataFits(g, sectors) && |fat| == g.nFatent && Decoded() && WindowCoherent() && DiskCoherent() && MirrorCoherent()
    }

    ghost predicate Shape()
      reads this`disk, this`image, this`data
    {
      && win.Length == 512
      && |disk| == |data| == sectors
      && |image| == 512 * g.fsize
      && FatFits(g, sectors)
    }

    /** The logical content of a sector. */
    ghost function Content(s: nat): Sector
      requires Shape() && s < sectors
      reads this`disk, this`image, this`data
    {
      if InFat(g, s) then ImageSector(image, s - g.fatbase) else data[s]
    }

    ghost predicate Decoded()
      requires Shape()
      reads this`disk, this`image, this`data, this`fat
    {
      fat == Links(image, g.fatType, g.nFatent)
    }

    /** The window shows the logical content of its sector; sector 0 stands for no sector. */
    ghost predicate WindowCoherent()
      requires Shape()
      reads this`disk, this`image, this`data, this`winsect, this`wflag, win
    {
      && (winsect == 0 ==> !wflag)
      && (winsect != 0 ==>
            g.fatbase <= winsect < sectors && !InMirror(g, winsect) && win[..] == Content(winsect))
    }

    /** Outside the second FAT and the dirty window the disk holds the logical content. */
    ghost predicate DiskCoherent()
      requires Shape()
      reads this`disk, this`image, this`data, this`winsect, this`wflag
    {
      forall s: nat :: s < sectors && !InMirror(g, s) && !(wflag && s == winsect) ==> disk[s] == Content(s)
    }

    /** Both FAT copies agree, except for a dirty window. */
    ghost predicate MirrorCoherent()
      requires Shape()
      reads this`disk, this`image, this`data, this`winsect, this`wflag, this`mirrorLost
    {
      !mirrorLost && g.nFats == 2 ==>
        forall s: nat :: InFat(g, s) && !(wflag && s == winsect) ==> disk[s + g.fsize] == disk[s]
    }

    /** Bounds that every layer above needs. */
    lemma Bounds()
      requires Valid()
      ensures g.fatbase >= 1 && 3 <= g.nFatent < EntryRange(g.fatType) <= 0x1000_0000 < DISK_ERROR
      ensures |image| == 512 * g.fsize && FatSpan(g.fatType, g.nFatent) <= |image| && |data| == sectors && |fat| == g.nFatent
    {
    }

    /** Outside the FAT the window shows the data of its sector. */
    lemma WindowShows()
      requires Valid() && winsect != 0 && !InFat(g, winsect)
      ensures win.Length == 512 && winsect < |data| && win[..] == data[winsect]
    {
      hide DataFits, Links, ImageSector;
    }

    /** What an access through the window leaves: errors are only added, and the window has stayed
        where it was or shows a FAT sector. */
    twostate predicate Looked()
      reads this`errors, this`faults, this`winsect, this`freeClust, this`fsiFlag
    {
      Tried() && (winsect == old(winsect) || InFat(g, winsect)) && Noted()
    }

    /** No coming disk operation is to fail. */
    ghost predicate Sound()
      reads this`faults
    {
      forall i :: 0 <= i < |faults| ==> !faults[i]
    }

    /** Disk operations may have been tried: failures are only added, and none as long as the disk does not fail. */
    twostate predicate Tried()
      reads this`errors, this`faults
    {
      errors >= old(errors) && (old(Sound()) ==> Sound() && errors == old(errors))
    }

    /** A free count that has changed is to be written to the FSInfo sector. */
    twostate predicate Noted()
      reads this`freeClust, this`fsiFlag
    {
      (freeClust != old(freeClust) ==> fsiFlag) && (old(fsiFlag) ==> fsiFlag)
    }

    /** The next disk operation is to fail. */
    ghost predicate FailsNext()
      reads this`faults
    {
      faults != [] && faults[0]
    }

    /** disk_read contract: on success the sector, on failure nothing. */
    method DiskReadWindow(sector: nat) returns (ok: bool)
      requires win.Length == 512
      modifies this`faults, this`errors, win
      ensures ok ==> sector < |disk| && win[..] == disk[sector] && errors == old(errors)
      ensures errors >= old(errors) && (sector < |disk| ==> Tried())
      ensures !ok ==> win[..] == old(win[..]) && errors > old(errors)
    {
      ok := TakeOutcome(sector < |disk|);
      if ok {
        var content := disk[sector];
        forall i | 0 <= i < 512 { win[i] := content[i]; }
      }
    }

    /** disk_write contract for one sector: on success the new content, on failure nothing. */
    method DiskWrite(content: Sector, sector: nat) returns (ok: bool)
      modifies this`faults, this`errors, this`disk
      ensures ok ==> sector < |old(disk)| && errors == old(errors) && disk == old(disk)[sector := content]
      ensures !ok ==> disk == old(disk) && errors > old(errors)
      ensures old(FailsNext()) ==> !ok
      ensures errors >= old(errors) && (sector < |old(disk)| ==> Tried())
      ensures faults == if old(faults) == [] then [] else old(faults)[1..]
    {
      ok := TakeOutcome(sector < |disk|);
      if ok {
        disk := disk[sector := content];
      }
    }

    method TakeOutcome(possible: bool) returns (ok: bool)
      modifies this`faults, this`errors
      ensures ok ==> possible && errors == old(errors)
      ensures !ok ==> errors == old(errors) + 1
      ensures ok <==> possible && !old(FailsNext())
      ensures possible ==> Tried()
      ensures faults == if old(faults) == [] then [] else old(faults)[1..]
    {
      ok := possible;
      if |faults| > 0 {
        ok := possible && !faults[0];
        faults := faults[1..];
      }
      if !ok {
        errors := errors + 1;
      }
    }

    /** move_window: the logical volume never changes; on success the window shows the sector asked for,
        and with sector 0 nothing is left to write back. */
    method MoveWindow(sector: nat) returns (ok: bool)
      requires Valid()
      requires sector != 0 ==> sector >= g.fatbase && !InMirror(g, sector)
      modifies this`disk, this`faults, this`winsect, this`wflag, this`errors, this`mirrorLost, win
      ensures Valid()
      ensures errors >= old(errors) && (sector == 0 || sector < sectors ==> Tried()) && (mirrorLost && !old(mirrorLost) ==> errors > old(errors))
      ensures ok && sector != 0 ==> winsect == sector
      ensures ok && sector == 0 ==> winsect == old(winsect) && win[..] == old(win[..])
      ensures ok && old(winsect) != sector ==> !wflag
      ensures ok && old(winsect) == sector ==> wflag == old(wflag)
      ensures !ok ==> winsect == old(winsect) && errors > old(errors)
      ensures sector == 0 && !ok ==> wflag && disk == old(disk)
      ensures sector == 0 && old(FailsNext()) && old(wflag) ==> !ok
      ensures sector == old(winsect) || (sector == 0 && !old(wflag)) ==> ok && disk == old(disk) && faults == old(faults) && errors == old(errors)
    {
      hide DataFits, Links, ImageSector;
      var wsect := winsect;
      if wsect != sector {
        if wflag {
          ok := WriteBack();
          if !ok { return; }
        }
        if sector != 0 {
          ok := DiskReadWindow(sector);
          if !ok { return; }
          winsect := sector;
        }
      }
      ok := true;
    }

    /** The part of move_window that writes a dirty window to its sector and to every copy of the FAT. */
    method WriteBack() returns (ok: bool)
      requires Valid() && wflag
      modifies this`disk, this`faults, this`wflag, this`errors, this`mirrorLost
      ensures Valid() && wflag == !ok
      ensures Tried() && (!ok ==> errors > old(errors) && disk == old(disk))
      ensures old(FailsNext()) ==> !ok
      ensures mirrorLost && !old(mirrorLost) ==> errors > old(errors)
    {
      hide DataFits, Links, ImageSector;
      var wsect := winsect;
      ok := DiskWrite(win[..], wsect);
      if !ok { return; }
      wflag := false;
      if wsect < g.fatbase + g.fsize {
        var nf := g.nFats;
        ghost var before := disk;
        while nf > 1
          invariant !wflag && (nf == g.nFats || (nf == 1 && g.nFats == 2))
          invariant nf == 2 ==> wsect == winsect
          invariant Tried() && (old(mirrorLost) ==> mirrorLost)
          invariant mirrorLost && !old(mirrorLost) ==> errors > old(errors)
          invariant nf == g.nFats ==> disk == before && mirrorLost == old(mirrorLost)
          invariant nf < g.nFats ==> winsect + g.fsize < |before|
          invariant nf < g.nFats ==> disk == before[winsect + g.fsize := win[..]] || (mirrorLost && disk == before)
        {
          wsect := wsect + g.fsize;
          var done := DiskWrite(win[..], wsect);
          if !done {
            mirrorLost := true;
          }
          nf := nf - 1;
        }
      }
    }

    /** A run of sectors of the data area that the window does not show. */
    ghost predicate DataRun(sector: nat, count: nat)
      reads this`winsect
    {
      && g.fatbase + (if g.nFats == 2 then 2 * g.fsize else g.fsize) <= sector && sector + count <= sectors
      && !(sector <= winsect < sector + count)
    }

    /** disk_write of consecutive data sectors past the window. */
    method WriteRun(content: seq<Byte>, sector: nat, count: nat) returns (ok: bool)
      requires Valid() && |content| == 512 * count && DataRun(sector, count)
      modifies this`disk, this`faults, this`errors, this`data
      ensures Valid() && |data| == |old(data)|
      ensures ok ==> errors == old(errors) && data == SetRun(old(data), sector, content, count)
      ensures !ok ==> data == old(data) && errors > old(errors)
      ensures Tried()
    {
      hide DataFits, Links, ImageSector;
      ok := TakeOutcome(true);
      if ok {
        disk := SetRun(disk, sector, content, count);
        data := SetRun(data, sector, content, count);
        assert DiskCoherent();
        assert MirrorCoherent();
      }
    }

    /** disk_read of consecutive data sectors past the window. */
    method ReadRun(sector: nat, count: nat) returns (ok: bool, content: seq<Byte>)
      requires Valid() && DataRun(sector, count)
      modifies this`faults, this`errors
      ensures Valid()
      ensures ok ==> errors == old(errors) && sector + count <= |data| && content == Gather(data, Run(sector, count))
      ensures !ok ==> errors > old(errors)
      ensures Tried()
    {
      hide DataFits, Links, ImageSector;
      ok := TakeOutcome(true);
      content := [];
      if ok {
        content := Gather(disk, Run(sector, count));
        GatherSame(disk, data, Run(sector, count));
      }
    }

    /** Stores bytes in the window, which shows a sector outside the FAT, and marks it dirty. */
    method PokeData(o: nat, b: seq<Byte>)
      requires Valid() && winsect != 0 && !InFat(g, winsect) && o + |b| <= 512
      modifies this`wflag, this`data, win
      ensures Valid() && wflag && |data| == |old(data)|
      ensures winsect < |old(data)| && data == old(data)[winsect := Splice(old(data)[winsect], o, b)]
    {
      hide DataFits, Links, ImageSector;
      assert win[..] == data[winsect];
      forall i | 0 <= i < |b| {
        win[o + i] := b[i];
      }
      wflag := true;
      assert win[..] == Splice(data[winsect], o, b);
      data := data[winsect := win[..]];
    }

    /** Nothing is left to write back: what the zero filling of a new cluster relies on while the window is
        between two sectors. */
    ghost predicate Flushed()
      reads this`disk, this`image, this`fat, this`data, this`mirrorLost
    {
      && Shape() && DataFits(g, sectors) && |fat| == g.nFatent && Decoded()
      && (forall s: nat :: s < sectors && !InMirror(g, s) ==> disk[s] == Content(s))
      && (!mirrorLost && g.nFats == 2 ==> forall s: nat :: InFat(g, s) ==> disk[s + g.fsize] == disk[s])
    }

    lemma FlushedNow()
      requires Valid() && !wflag
      ensures Flushed() && win.Length == 512 && |data| == sectors
    {
      hide DataFits, Links, ImageSector;
    }

    /** The loop of dir_next that fills a run of data sectors with zero through the window, and leaves the
        window on the first of them. */
    method ClearRun(sector: nat, count: nat) returns (ok: bool)
      requires Valid() && !wflag && 0 < count && sector + count <= sectors
      requires g.fatbase + (if g.nFats == 2 then 2 * g.fsize else g.fsize) <= sector
      modifies this`disk, this`faults, this`winsect, this`wflag, this`errors, this`mirrorLost, this`data, win
      ensures Valid() && Tried()
      ensures ok ==> winsect == sector && data == Cleared(old(data), sector, count)
      ensures !ok ==> errors > old(errors) && exists n: nat :: n <= count && data == Cleared(old(data), sector, n)
    {
      hide Valid, Flushed, Cleared;
      FlushedNow();
      forall i | 0 <= i < 512 {
        win[i] := 0;
      }
      winsect := sector;
      var c := 0;
      ghost var d0 := data;
      ClearedMore(d0, sector, 0);
      while c < count
        invariant c <= count && winsect == sector + c && !wflag && win[..] == Zeros(512) && Flushed()
        invariant data == Cleared(d0, sector, c) && Tried()
      {
        ClearedMore(d0, sector, c);
        ok := ClearSector();
        if !ok { return; }
        winsect := winsect + 1;
        c := c + 1;
      }
      winsect := winsect - c;
      ClearedFirst(d0, sector, count);
      FirstCleared();
      ok := true;
    }

    lemma FirstCleared()
      requires Flushed() && !wflag && win.Length == 512 && win[..] == Zeros(512) && winsect < |data| && data[winsect] == Zeros(512)
      requires g.fatbase + (if g.nFats == 2 then 2 * g.fsize else g.fsize) <= winsect
      ensures Valid()
    {
      hide DataFits, Links, ImageSector;
    }

    /** One round of that loop. */
    method ClearSector() returns (ok: bool)
      requires Flushed() && win.Length == 512 && win[..] == Zeros(512) && winsect < sectors
      requires g.fatbase + (if g.nFats == 2 then 2 * g.fsize else g.fsize) <= winsect
      modifies this`disk, this`faults, this`wflag, this`errors, this`mirrorLost, this`data, this`winsect, win
      ensures winsect == old(winsect) && winsect < |old(data)| && data == old(data)[winsect := Zeros(512)] && Tried()
      ensures ok ==> Flushed() && !wflag && win[..] == Zeros(512)
      ensures !ok ==> Valid() && errors > old(errors)
    {
      hide DataFits, Links, ImageSector;
      wflag := true;
      data := data[winsect := win[..]];
      ok := MoveWindow(0);
    }

    /** The window shows byte i of the FAT. */
    ghost predicate Shows(i: nat)
      reads this`winsect
    {
      i < 512 * g.fsize && winsect == g.fatbase + i / 512
    }

    /** Moves the window to byte i of the FAT and reads it. */
    method OpenFatByte(i: nat) returns (ok: bool, b: Byte)
      requires Valid() && i < 512 * g.fsize
      modifies this`disk, this`faults, this`winsect, this`wflag, this`errors, this`mirrorLost, win
      ensures Valid() && Looked()
      ensures ok ==> Shows(i) && InFat(g, winsect) && b == image[i]
      ensures !ok ==> errors > old(errors)
    {
      ok := MoveWindow(g.fatbase + i / 512);
      b := 0;
      if ok {
        b := win[i % 512];
        assert b == win[..][i % 512];
      }
    }

    /** Stores one byte of the FAT in the window that shows it, and marks the window dirty. */
    method Poke(i: nat, v: Byte)
      requires Valid() && Shows(i)
      modifies this`wflag, this`image, this`fat, win
      ensures Valid() && wflag && image == old(image)[i := v]
    {
      assert win[..] == ImageSector(image, i / 512);
      win[i % 512] := v;
      wflag := true;
      forall k: nat | 512 * k + 512 <= |image|
        ensures ImageSector(image[i := v], k) ==
                if k == i / 512 then ImageSector(image, k)[i % 512 := v] else ImageSector(image, k)
      {
        SetImageByte(image, i, v, k);
      }
      image := image[i := v];
      fat := Links(image, g.fatType, g.nFatent);
    }

    lemma ShowsAligned(i: nat)
      ensures i % 2 == 0 && Shows(i + 1) ==> Shows(i)
      ensures i % 4 == 0 && Shows(i + 3) ==> Shows(i) && Shows(i + 1) && Shows(i + 2)
    {
      SameSectorOf(i);
    }

    /** ST_WORD into the window at a multiple of 2. */
    method PokeWord(i: nat, w: nat)
      requires Valid() && i % 2 == 0 && i + 2 <= 512 * g.fsize && Shows(i + 1)
      modifies this`wflag, this`image, this`fat, win
      ensures Valid() && wflag && i + 2 <= |old(image)| && image == StoreWord(old(image), i, w)
    {
      hide Shape, Decoded, WindowCoherent, DiskCoherent, MirrorCoherent, DataFits, Shows;
      Bounds();
      ShowsAligned(i);
      Poke(i, w % 256);
      Poke(i + 1, (w / 0x100) % 256);
    }

    /** ST_DWORD into the window at a multiple of 4. */
    method PokeDword(i: nat, w: nat)
      requires Valid() && i % 4 == 0 && i + 4 <= 512 * g.fsize && Shows(i + 3)
      modifies this`wflag, this`image, this`fat, win
      ensures Valid() && wflag && i + 4 <= |old(image)| && image == StoreDword(old(image), i, w)
    {
      hide Shape, Decoded, WindowCoherent, DiskCoherent, MirrorCoherent, DataFits, Shows;
      Bounds();
      ShowsAligned(i);
      Poke(i, w % 256);
      Poke(i + 1, (w / 0x100) % 256);
      Poke(i + 2, (w / 0x1_0000) % 256);
      Poke(i + 3, (w / 0x100_0000) % 256);
    }

    /** get_fat: 1 for a number out of range, 0xFFFFFFFF for a disk error, else the entry. */
    method GetFat(clst: nat) returns (r: nat)
      requires Valid()
      modifies this`disk, this`faults, this`winsect, this`wflag, this`errors, this`mirrorLost, win
      ensures Valid() && Looked()
      ensures clst < 2 || clst >= g.nFatent ==> r == 1 && errors == old(errors)
      ensures 2 <= clst < g.nFatent ==> r == 0xFFFF_FFFF || (r == fat[clst] && r < 0x1000_0000 && InFat(g, winsect))
      ensures r == DISK_ERROR ==> errors > old(errors)
    {
      if clst < 2 || clst >= g.nFatent {
        return 1;
      }
      LinkIsEntry(image, g.fatType, g.nFatent, clst);
      match g.fatType {
        case Fat12 => r := GetFat12(clst);
        case Fat16 => r := GetFat16(clst);
        case Fat32 => r := GetFat32(clst);
      }
    }

    method GetFat12(clst: nat) returns (r: nat)
      requires Valid() && EntryAt(Fat12, clst) + 2 <= |image|
      modifies this`disk, this`faults, this`winsect, this`wflag, this`errors, this`mirrorLost, win
      ensures Valid() && Looked()
      ensures r == DISK_ERROR || (r == Entry(image, Fat12, clst) && InFat(g, winsect))
      ensures r == DISK_ERROR ==> errors > old(errors)
    {
      hide Shape, Decoded, WindowCoherent, DiskCoherent, MirrorCoherent, DataFits, InFat;
      Bounds();
      var bc := clst + clst / 2;
      var ok, lo := OpenFatByte(bc);
      if !ok { return DISK_ERROR; }
      bc := bc + 1;
      var hi;
      ok, hi := OpenFatByte(bc);
      if !ok { return DISK_ERROR; }
      r := Unpack12(clst % 2 == 1, lo, hi);
    }

    method GetFat16(clst: nat) returns (r: nat)
      requires Valid() && 2 * clst + 2 <= |image|
      modifies this`disk, this`faults, this`winsect, this`wflag, this`errors, this`mirrorLost, win
      ensures Valid() && Looked()
      ensures r == DISK_ERROR || (r == Entry(image, Fat16, clst) && InFat(g, winsect))
      ensures r == DISK_ERROR ==> errors > old(errors)
    {
      hide LoadWord, ImageSector;
      WordInSector(image, clst);
      var ok := MoveWindow(g.fatbase + clst / 256);
      if !ok { return DISK_ERROR; }
      r := LoadWord(win[..], clst * 2 % 512);
    }

    method GetFat32(clst: nat) returns (r: nat)
      requires Valid() && 4 * clst + 4 <= |image|
      modifies this`disk, this`faults, this`winsect, this`wflag, this`errors, this`mirrorLost, win
      ensures Valid() && Looked()
      ensures r == DISK_ERROR || (r == Entry(image, Fat32, clst) && InFat(g, winsect))
      ensures r == DISK_ERROR ==> errors > old(errors)
    {
      hide LoadDword, ImageSector;
      DwordInSector(image, clst);
      var ok := MoveWindow(g.fatbase + clst / 128);
      if !ok { return DISK_ERROR; }
      r := LoadDword(win[..], clst * 4 % 512) % 0x1000_0000;
    }

    /** put_fat: stores val in one entry, truncated to its width, and changes nothing else.
        After a disk error the entry itself is unknown, every other one is still intact. */
    method PutFat(clst: nat, val: Dword) returns (res: FResult)
      requires Valid() && winsect != 0
      modifies this`disk, this`faults, this`winsect, this`wflag, this`errors, this`mirrorLost
      modifies this`image, this`fat, win
      ensures Valid() && Looked() && winsect != 0
      ensures clst < 2 || clst >= g.nFatent ==> res == IntErr && fat == old(fat)
      ensures 2 <= clst < g.nFatent ==> res == Ok || (res == DiskErr && errors > old(errors))
      ensures res == Ok ==> 2 <= clst < g.nFatent && fat == old(fat)[clst := Truncate(g.fatType, val)]
      ensures res == Ok ==> InFat(g, winsect)
      ensures res != Ok ==> ChangedOnlyAt(old(fat), fat, clst)
      ensures 2 <= clst < g.nFatent ==> wflag
    {
      if clst < 2 || clst >= g.nFatent {
        return IntErr;
      }
      res := PutEntry(clst, val);
      wflag := true;
    }

    /** The switch of put_fat over the sub-type. */
    method PutEntry(clst: nat, val: Dword) returns (res: FResult)
      requires Valid() && winsect != 0 && clst < g.nFatent
      modifies this`disk, this`faults, this`winsect, this`wflag, this`errors, this`mirrorLost
      modifies this`image, this`fat, win
      ensures Valid() && Looked() && winsect != 0
      ensures res == Ok || (res == DiskErr && errors > old(errors))
      ensures res == Ok ==> fat == old(fat)[clst := Truncate(g.fatType, val)] && InFat(g, winsect)
      ensures res != Ok ==> ChangedOnlyAt(old(fat), fat, clst)
    {
      hide StoreEntry, HalfStore12, Entry, Links, WindowCoherent, DiskCoherent, MirrorCoherent, DataFits;
      EntryInside(g.fatType, g.nFatent, clst, |image|);
      StoreIsUpdate(image, g.fatType, g.nFatent, clst, val);
      match g.fatType {
        case Fat12 =>
          HalfStoreKeepsOthers(image, g.nFatent, clst, val);
          res := PutFat12(clst, val);
        case Fat16 => res := PutFat16(clst, val);
        case Fat32 => res := PutFat32(clst, val);
      }
    }

    method PutFat12(clst: nat, val: Dword) returns (res: FResult)
      requires Valid() && winsect != 0 && EntryAt(Fat12, clst) + 2 <= |image|
      modifies this`disk, this`faults, this`winsect, this`wflag, this`errors, this`mirrorLost
      modifies this`image, this`fat, win
      ensures Valid() && Looked() && winsect != 0
      ensures res == Ok || (res == DiskErr && errors > old(errors))
      ensures res == Ok ==> image == StoreEntry(old(image), Fat12, clst, val) && InFat(g, winsect)
      ensures res != Ok ==> image == old(image) || image == HalfStore12(old(image), clst, val)
    {
      hide Shape, Decoded, WindowCoherent, DiskCoherent, MirrorCoherent, DataFits;
      Bounds();
      var bc := clst + clst / 2;
      var ok, p := OpenFatByte(bc);
      if !ok { return DiskErr; }
      Poke(bc, Low12(clst % 2 == 1, p, val));
      bc := bc + 1;
      ok, p := OpenFatByte(bc);
      if !ok { return DiskErr; }
      Poke(bc, High12(clst % 2 == 1, p, val));
      return Ok;
    }

    method PutFat16(clst: nat, val: Dword) returns (res: FResult)
      requires Valid() && winsect != 0 && 2 * clst + 2 <= |image|
      modifies this`disk, this`faults, this`winsect, this`wflag, this`errors, this`mirrorLost
      modifies this`image, this`fat, win
      ensures Valid() && Looked() && winsect != 0
      ensures res == Ok || (res == DiskErr && errors > old(errors))
      ensures res == Ok ==> image == StoreEntry(old(image), Fat16, clst, val) && InFat(g, winsect)
      ensures res != Ok ==> image == old(image)
    {
      hide Shape, Decoded, WindowCoherent, DiskCoherent, MirrorCoherent, DataFits, StoreWord;
      Bounds();
      var ok, _ := OpenFatByte(2 * clst + 1);
      if !ok { return DiskErr; }
      PokeWord(2 * clst, val);
      return Ok;
    }

    method PutFat32(clst: nat, val: Dword) returns (res: FResult)
      requires Valid() && winsect != 0 && 4 * clst + 4 <= |image|
      modifies this`disk, this`faults, this`winsect, this`wflag, this`errors, this`mirrorLost
      modifies this`image, this`fat, win
      ensures Valid() && Looked() && winsect != 0
      ensures res == Ok || (res == DiskErr && errors > old(errors))
      ensures res == Ok ==> image == StoreEntry(old(image), Fat32, clst, val) && InFat(g, winsect)
      ensures res != Ok ==> image == old(image)
    {
      hide Shape, Decoded, WindowCoherent, DiskCoherent, MirrorCoherent, DataFits, Merge32, StoreDword;
      Bounds();
      var ok, p := OpenFatByte(4 * clst + 3);
      if !ok { return DiskErr; }
      PokeDword(4 * clst, Merge32(p, val));
      return Ok;
    }
  }

  /** Two tables that differ at most in entry c. */
  ghost predicate ChangedOnlyAt(f: seq<nat>, r: seq<nat>, c: nat) {
    |r| == |f| && forall k :: 0 <= k < |f| && k != c ==> r[k] == f[k]
  }

  /** A word or double word at a multiple of its size does not cross a sector. */
  lemma SameSectorOf(i: nat)
    ensures i % 2 == 0 ==> (i + 1) / 512 == i / 512
    ensures i % 4 == 0 ==> (i + 1) / 512 == (i + 2) / 512 == (i + 3) / 512 == i / 512
  {
    var q, r := i / 512, i % 512;
    assert i == 512 * q + r;
    assert i % 4 == 0 ==> r <= 508;
    assert i % 2 == 0 ==> r <= 510;
  }

  function Zeros(n: nat): (r: seq<Byte>)
    ensures |r| == n
    ensures forall i :: 0 <= i < n ==> r[i] == 0
  {
    seq(n, i => 0)
  }

  /** The sectors d with count of them, from sector on, filled with zero. */
  function Cleared(d: seq<Sector>, sector: nat, count: nat): (r: seq<Sector>)
    ensures |r| == |d|
    ensures forall s {:trigger r[s]} :: 0 <= s < |d| ==> r[s] == if sector <= s < sector + count then Zeros(512) else d[s]
  {
    seq(|d|, s requires 0 <= s < |d| => ClearedAt(d, sector, count, s))
  }

  function ClearedAt(d: seq<Sector>, sector: nat, count: nat, s: nat): Sector
    requires s < |d|
  {
    if sector <= s < sector + count then Zeros(512) else d[s]
  }

  lemma ClearedMore(d: seq<Sector>, sector: nat, c: nat)
    ensures Cleared(d, sector, 0) == d
    ensures sector + c < |d| ==> Cleared(d, sector, c)[sector + c := Zeros(512)] == Cleared(d, sector, c + 1)
  {
  }

  lemma ClearedFirst(d: seq<Sector>, sector: nat, count: nat)
    requires 0 < count && sector + count <= |d|
    ensures Cleared(d, sector, count)[sector] == Zeros(512)
  {
  }
}
