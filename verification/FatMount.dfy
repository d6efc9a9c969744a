/** The geometry that a mount reads from the boot sector, and what it guarantees about the FAT, the root
    directory and the clusters. */
module FatMount {
  import opened Basics
  import opened FatCodec
  import opened FatVolume
  import opened FatSectors

  const MIN_FAT16: nat := 4086
  const MIN_FAT32: nat := 65526

  function Wrap(x: nat): (r: Dword)
    ensures x < 0x1_0000_0000 ==> r == x
  {
    x % 0x1_0000_0000
  }

  /** The fields of a boot sector that the mount uses. */
  datatype Bpb = Bpb(bytsPerSec: nat, secPerClus: Byte, rsvdSecCnt: nat, numFATs: Byte, rootEntCnt: nat, totSec: Dword, fatSz: Dword, rootClus: Dword)

  function ReadBpb(b: Sector): (r: Bpb)
    ensures r.rsvdSecCnt < 0x1_0000 && r.rootEntCnt < 0x1_0000
  {
    Bpb(LoadWord(b, 11), b[13], LoadWord(b, 14), b[16], LoadWord(b, 17),
        if LoadWord(b, 19) != 0 then LoadWord(b, 19) else LoadDword(b, 32),
        if LoadWord(b, 22) != 0 then LoadWord(b, 22) else LoadDword(b, 36), LoadDword(b, 44))
  }

  /** The bytes of a boot sector that the mount takes its numbers from. */
  lemma BpbLayout(b: Sector)
    ensures var r := ReadBpb(b);
            && WordAt(b, 11, r.bytsPerSec) && r.secPerClus == b[13] && WordAt(b, 14, r.rsvdSecCnt) && r.numFATs == b[16]
            && WordAt(b, 17, r.rootEntCnt) && DwordAt(b, 44, r.rootClus)
            && (if b[19] == b[20] == 0 then DwordAt(b, 32, r.totSec) else WordAt(b, 19, r.totSec))
            && (if b[22] == b[23] == 0 then DwordAt(b, 36, r.fatSz) else WordAt(b, 22, r.fatSz))
  {
  }

  predicate PowerOfTwo(x: nat) {
    x == 1 || x == 2 || x == 4 || x == 8 || x == 16 || x == 32 || x == 64 || x == 128
  }

  /** The bitwise and of two numbers. */
  function And(x: nat, y: nat): nat
    decreases x
  {
    if x == 0 || y == 0 then 0 else 2 * And(x / 2, y / 2) + (x % 2) * (y % 2)
  }

  lemma {:induction false} AndSelf(x: nat)
    ensures And(x, x) == x
  {
    if x > 0 {
      AndSelf(x / 2);
    }
  }

  /** x & (x - 1) clears the lowest bit that is set. */
  lemma {:induction false} AndPredecessor(x: nat)
    requires x > 0
    ensures And(x, x - 1) == 0 <==> x == 1 || (x % 2 == 0 && And(x / 2, x / 2 - 1) == 0)
  {
    if x > 1 {
      if x % 2 == 0 {
        assert (x - 1) / 2 == x / 2 - 1;
      } else {
        assert (x - 1) / 2 == x / 2;
        AndSelf(x / 2);
      }
    }
  }

  /** The test of chk_mounted for a power of two is right. */
  lemma PowerBits(x: Byte)
    requires x > 0
    ensures And(x, x - 1) == 0 <==> PowerOfTwo(x)
  {
    PowerBelow(x, 8);
  }

  lemma {:induction false} PowerBelow(x: nat, n: nat)
    requires 0 < x && n <= 8 && x < Power(n)
    ensures And(x, x - 1) == 0 <==> PowerOfTwo(x)
  {
    hide And;
    AndPredecessor(x);
    assert Power(n) == if n == 0 then 1 else 2 * Power(n - 1);
    if x > 1 {
      PowerBelow(x / 2, n - 1);
    }
    PowerTable();
  }

  lemma PowerTable()
    ensures Power(0) == 1 && Power(1) == 2 && Power(2) == 4 && Power(3) == 8 && Power(4) == 16
    ensures Power(5) == 32 && Power(6) == 64 && Power(7) == 128 && Power(8) == 256
  {
    assert Power(4) == 16;
  }

  function Power(n: nat): nat {
    if n == 0 then 1 else 2 * Power(n - 1)
  }

  function FatArea(b: Bpb): nat {
    b.numFATs * b.fatSz
  }

  /** Sectors before the data area: reserved ones, the FATs and the static root directory. */
  function SystemSectors(b: Bpb): nat {
    b.rsvdSecCnt + FatArea(b) + b.rootEntCnt / 16
  }

  /** How many whole clusters follow them. */
  function ClusterCount(b: Bpb): nat {
    if b.secPerClus > 0 && b.totSec >= SystemSectors(b) then Quotient(b.totSec - SystemSectors(b), b.secPerClus) else 0
  }

  /** The sub-type by the number of clusters: up to 4085 of them FAT12, up to 65525 FAT16. */
  function TypeOf(clusters: nat): (t: FatType)
    ensures t == Fat12 <==> clusters <= 4085
    ensures t == Fat16 <==> 4086 <= clusters <= 65525
  {
    if clusters >= MIN_FAT32 then Fat32 else if clusters >= MIN_FAT16 then Fat16 else Fat12
  }

  /** What a boot sector has to say to be accepted. */
  predicate Acceptable(b: Bpb) {
    && b.bytsPerSec == 512 && 1 <= b.numFATs <= 2 && PowerOfTwo(b.secPerClus) && b.rootEntCnt % 16 == 0
    && b.rsvdSecCnt > 0 && ClusterCount(b) > 0
    && (TypeOf(ClusterCount(b)) == Fat32 <==> b.rootEntCnt == 0)
    && FatSpan(TypeOf(ClusterCount(b)), ClusterCount(b) + 2) <= 512 * b.fatSz
  }

  /** No 32-bit sum or product of the mount wraps. */
  predicate NoWrap(b: Bpb, bsect: nat) {
    && bsect + SystemSectors(b) < 0x1_0000_0000
    && 4 * (ClusterCount(b) + 2) + 511 < 0x1_0000_0000
  }

  /** The layout that the fields describe for a volume at sector bsect. */
  predicate Describes(g: Geometry, b: Bpb, bsect: nat) {
    && g.fatType == TypeOf(ClusterCount(b)) && g.nFatent == ClusterCount(b) + 2
    && g.fatbase == bsect + b.rsvdSecCnt && g.fsize == b.fatSz && g.nFats == b.numFATs && g.csize == b.secPerClus
    && g.database == bsect + SystemSectors(b) && g.nRootdir == b.rootEntCnt
    && g.dirbase == if g.fatType == Fat32 then b.rootClus else g.fatbase + FatArea(b)
  }

  /** What chk_mounted makes of a boot sector, in the 32-bit arithmetic it uses: a geometry, or a refusal. */
  function Mounted(b: Bpb, bsect: Dword): Option<Geometry> {
    if b.bytsPerSec == 512 && 1 <= b.numFATs <= 2 && b.secPerClus > 0 && And(b.secPerClus, b.secPerClus - 1) == 0
       && b.rootEntCnt % 16 == 0 && b.rsvdSecCnt > 0
    then Measured(b, bsect) else None
  }

  /** The sectors before the data area, as the 32-bit sums see them. */
  function SystemSectorsSeen(b: Bpb): Dword {
    Wrap(b.rsvdSecCnt + Wrap(FatArea(b)) + b.rootEntCnt / 16)
  }

  /** How many clusters there seem to be. */
  function ClustersSeen(b: Bpb): nat
    requires b.secPerClus > 0
  {
    if b.totSec < SystemSectorsSeen(b) then 0 else Quotient(b.totSec - SystemSectorsSeen(b), b.secPerClus)
  }

  /** The sizes. */
  function Measured(b: Bpb, bsect: Dword): Option<Geometry>
    requires b.secPerClus > 0
  {
    var n := ClustersSeen(b);
    var t := TypeOf(n);
    var fatbase := Wrap(bsect + b.rsvdSecCnt);
    if n > 0 && (t == Fat32 <==> b.rootEntCnt == 0) && b.fatSz >= Wrap(FatBytes(t, Wrap(n + 2)) + 511) / 512
    then Some(Geometry(t, fatbase, b.fatSz, b.numFATs, b.secPerClus, Wrap(n + 2), Wrap(bsect + SystemSectorsSeen(b)), b.rootEntCnt,
                       if t == Fat32 then b.rootClus else Wrap(fatbase + Wrap(FatArea(b)))))
    else None
  }

  /** The geometry part of chk_mounted. */
  method Mount(win: Sector, bsect: Dword) returns (res: FResult, g: Geometry)
    ensures res == Ok || res == NoFilesystem
    ensures res == Ok ==> Mounted(ReadBpb(win), bsect) == Some(g)
    ensures res != Ok ==> Mounted(ReadBpb(win), bsect) == None
  {
    hide LoadWord, LoadDword, And, Measured;
    var b := ReadBpb(win);
    res, g := NoFilesystem, Geometry(Fat12, 0, 0, 0, 0, 0, 0, 0, 0);
    if b.bytsPerSec != 512 { return; }
    if b.numFATs != 1 && b.numFATs != 2 { return; }
    if b.secPerClus == 0 { return; }
    if And(b.secPerClus, b.secPerClus - 1) != 0 { return; }
    if b.rootEntCnt % 16 != 0 { return; }
    if b.rsvdSecCnt == 0 { return; }
    res, g := Measure(b, bsect);
  }

  /** The part of chk_mounted that computes sizes. */
  method Measure(b: Bpb, bsect: Dword) returns (res: FResult, g: Geometry)
    requires b.secPerClus > 0
    ensures res == Ok || res == NoFilesystem
    ensures res == Ok ==> Measured(b, bsect) == Some(g)
    ensures res != Ok ==> Measured(b, bsect) == None
  {
    hide FatSpan, TypeOf, Wrap, FatBytes, Quotient;
    res, g := NoFilesystem, Geometry(Fat12, 0, 0, 0, 0, 0, 0, 0, 0);
    var fasize: Dword := Wrap(b.numFATs * b.fatSz);
    var sysect: Dword := Wrap(b.rsvdSecCnt + fasize + b.rootEntCnt / 16);
    if b.totSec < sysect { return; }
    var nclst: nat := Quotient(b.totSec - sysect, b.secPerClus);
    if nclst == 0 { return; }
    var fmt := TypeOf(nclst);
    if fmt == Fat32 {
      if b.rootEntCnt != 0 { return; }
    } else {
      if b.rootEntCnt == 0 { return; }
    }
    var nFatent: Dword := Wrap(nclst + 2);
    if b.fatSz < Wrap(FatBytes(fmt, nFatent) + 511) / 512 { return; }
    res := Ok;
    var fatbase: Dword := Wrap(bsect + b.rsvdSecCnt);
    g := Geometry(fmt, fatbase, b.fatSz, b.numFATs, b.secPerClus, nFatent, Wrap(bsect + sysect), b.rootEntCnt,
                  if fmt == Fat32 then b.rootClus else Wrap(fatbase + fasize));
  }

  /** The required size of the FAT in bytes, in 32-bit arithmetic. */
  function FatBytes(t: FatType, n: nat): nat {
    match t
    case Fat12 => Wrap(n * 3) / 2 + n % 2
    case Fat16 => Wrap(n * 2)
    case Fat32 => Wrap(n * 4)
  }

  /** Rounded up to sectors it does not exceed the size of the FAT exactly when all entries fit into it. */
  lemma FatBytesRight(t: FatType, n: nat, fsize: nat)
    ensures 4 * n + 511 < 0x1_0000_0000 ==>
              Wrap(n) == n && (fsize < Wrap(FatBytes(t, n) + 511) / 512 <==> FatSpan(t, n) > 512 * fsize)
  {
    hide Wrap, FatSpan;
    if 4 * n + 511 < 0x1_0000_0000 {
      SpanIs(t, n);
      RoundUp(FatSpan(t, n), fsize);
    }
  }

  lemma SpanIs(t: FatType, n: nat)
    requires 4 * n + 511 < 0x1_0000_0000
    ensures FatBytes(t, n) == FatSpan(t, n) <= 4 * n
  {
    hide Wrap;
    OddHalf(n);
  }

  lemma OddHalf(n: nat)
    ensures n * 3 / 2 + n % 2 == (3 * n + 1) / 2 <= 2 * n
  {
    var k := n / 2;
    assert n == 2 * k + n % 2;
    if n % 2 == 0 {
      assert n * 3 == 2 * (3 * k);
    } else {
      assert n * 3 == 2 * (3 * k + 1) + 1;
    }
  }

  lemma RoundUp(x: nat, f: nat)
    ensures f < (x + 511) / 512 <==> x > 512 * f
  {
  }

  /** Where no sum wraps a boot sector is accepted if and only if it is acceptable, and then as it describes. */
  lemma MountedIfAcceptable(b: Bpb, bsect: Dword)
    requires NoWrap(b, bsect)
    ensures Mounted(b, bsect).Some? <==> Acceptable(b)
    ensures Mounted(b, bsect).Some? ==> Describes(Mounted(b, bsect).value, b, bsect)
  {
    hide FatSpan, TypeOf, FatBytes, Quotient, And;
    if b.secPerClus > 0 {
      PowerBits(b.secPerClus);
      FatBytesRight(TypeOf(ClusterCount(b)), ClusterCount(b) + 2, b.fatSz);
    }
  }

  /** When an accepted volume is right: for volumes of the size that FAT32 allows, exactly when the first data
      sector has a 32-bit number. */
  lemma MountedIsRight(b: Bpb, bsect: Dword)
    requires Mounted(b, bsect).Some? && ClusterCount(b) + 2 <= END_MARK
    ensures Acceptable(b) && Describes(Mounted(b, bsect).value, b, bsect) <==> bsect + SystemSectors(b) < 0x1_0000_0000
  {
    hide FatSpan, FatBytes, Quotient, And;
    if bsect + SystemSectors(b) < 0x1_0000_0000 {
      MountedIfAcceptable(b, bsect);
    }
  }

  function Quotient(x: nat, n: nat): nat
    requires n > 0
  {
    x / n
  }

  // ---------- what an accepted geometry guarantees ----------

  /** For a volume that lies on the disk: every FAT entry lies inside the FAT, the FAT copies, the static root
      directory and the clusters follow each other inside the volume, and the end mark that is stored reads
      back as no cluster number. */
  lemma GeometryFits(g: Geometry, b: Bpb, bsect: nat, sectors: nat)
    requires Acceptable(b) && Describes(g, b, bsect) && bsect + b.totSec <= sectors && g.nFatent <= END_MARK
    ensures FatFits(g, sectors) && DataFits(g, sectors)
    ensures g.fatType != Fat32 ==> g.dirbase >= g.fatbase + g.nFats * g.fsize && g.dirbase + g.nRootdir / 16 == g.database
    ensures Truncate(g.fatType, END_MARK) >= g.nFatent
    ensures forall c: nat :: c < g.nFatent ==> EntryAt(g.fatType, c) + EntryWidth(g.fatType) <= 512 * g.fsize
  {
    hide FatSpan, EntryAt, Truncate;
    assert FatArea(b) == if b.numFATs == 2 then 2 * b.fatSz else b.fatSz;
    assert g.nFats * g.fsize == FatArea(b);
    QuotientBelow(b.totSec - SystemSectors(b), b.secPerClus);
    forall c: nat | c < g.nFatent
      ensures EntryAt(g.fatType, c) + EntryWidth(g.fatType) <= 512 * g.fsize
    {
      EntryInside(g.fatType, g.nFatent, c, 512 * g.fsize);
    }
  }

  lemma QuotientBelow(x: nat, n: nat)
    requires n > 0
    ensures n * Quotient(x, n) <= x
  {
  }

  /** Clusters of an accepted volume do not share sectors, and lie behind the FAT copies. */
  lemma ClustersApart(g: Geometry, sectors: nat, c1: nat, r1: nat, c2: nat, r2: nat)
    requires FatFits(g, sectors) && DataFits(g, sectors)
    requires 2 <= c1 < g.nFatent && 2 <= c2 < g.nFatent && r1 < g.csize && r2 < g.csize
    ensures g.fatbase + g.nFats * g.fsize <= g.database <= Clust2Sect(g, c1) + r1 < sectors
    ensures Clust2Sect(g, c1) + r1 == Clust2Sect(g, c2) + r2 ==> c1 == c2 && r1 == r2
  {
    hide Clust2Sect;
    ClusterInside(g, sectors, c1, r1);
    if Clust2Sect(g, c1) + r1 == Clust2Sect(g, c2) + r2 {
      ClustersDisjoint(g, c1, r1, c2, r2);
    }
  }

  /** A boot sector with the given fields, in a FAT32 layout with one reserved sector. */
  function BootSector(numFATs: Byte, totSec: Dword, fatSz: Dword): Sector {
    var z: seq<Byte> := Zeros(512)[13 := 1][16 := numFATs];
    StoreDword(StoreDword(StoreDword(StoreWord(StoreWord(z, 11, 512), 14, 1), 32, totSec), 36, fatSz), 44, 2)
  }

  lemma BootSectorReads(numFATs: Byte, totSec: Dword, fatSz: Dword)
    ensures ReadBpb(BootSector(numFATs, totSec, fatSz)) == Bpb(512, 1, 1, numFATs, 0, totSec, fatSz, 2)
  {
    hide StoreDword, StoreWord;
    var z: seq<Byte> := Zeros(512)[13 := 1][16 := numFATs];
    var a := StoreWord(z, 11, 512);
    var b := StoreWord(a, 14, 1);
    var c := StoreDword(b, 32, totSec);
    var d := StoreDword(c, 36, fatSz);
    WordReadsBack(z, 11, 512);
    WordReadsBack(a, 14, 1);
    DwordReadsBack(b, 32, totSec);
    DwordReadsBack(c, 36, fatSz);
    DwordReadsBack(d, 44, 2);
  }

  /** A boot sector with two FATs of 2^31 sectors is mounted, with a data area that begins where the first FAT
      does. */
  lemma FatAreaCanWrap()
    ensures exists win: Sector, bsect: Dword :: Mounted(ReadBpb(win), bsect).Some?
              && var g := Mounted(ReadBpb(win), bsect).value; g.database == g.fatbase < g.fatbase + g.fsize
  {
    hide And;
    var b := Bpb(512, 1, 1, 2, 0, 0x1_1171, 0x8000_0000, 2);
    BootSectorReads(2, 0x1_1171, 0x8000_0000);
    PowerBits(1);
    assert FatArea(b) == 0x1_0000_0000 && SystemSectorsSeen(b) == 1;
    assert Quotient(0x1_1170, 1) == 0x1_1170;
    var win := BootSector(2, 0x1_1171, 0x8000_0000);
    assert Mounted(ReadBpb(win), 0).Some?;
  }

  /** A boot sector for 2^30 - 2 clusters is mounted with a FAT of a single sector: the limit on the size is
      needed. */
  lemma FatSizeCanWrap()
    ensures exists win: Sector, bsect: Dword :: Mounted(ReadBpb(win), bsect).Some?
              && var g := Mounted(ReadBpb(win), bsect).value; g.nFatent == 0x4000_0000 && g.fsize == 1
  {
    hide And;
    var b := Bpb(512, 1, 1, 1, 0, 0x4000_0000, 1, 2);
    BootSectorReads(1, 0x4000_0000, 1);
    PowerBits(1);
    assert FatArea(b) == 1 && SystemSectorsSeen(b) == 2;
    assert Quotient(0x3FFF_FFFE, 1) == 0x3FFF_FFFE;
    var win := BootSector(1, 0x4000_0000, 1);
    assert Mounted(ReadBpb(win), 0).Some?;
  }
}
