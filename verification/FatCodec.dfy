/** The packed file allocation table of FatFs: geometry of a volume, the three entry encodings,
    and what storing one entry does to all the others. */
module FatCodec {
  import opened Basics

  type Dword = x: int | 0 <= x < 0x1_0000_0000

  type Sector = s: seq<Byte> | |s| == 512 witness seq(512, i => 0)

  datatype FatType = Fat12 | Fat16 | Fat32

  /** The fields of FATFS that a mount fixes. */
  datatype Geometry = Geometry(
    fatType: FatType,
    fatbase: nat,    // first sector of the first FAT
    fsize: nat,      // sectors per FAT
    nFats: nat,      // copies of the FAT
    csize: nat,      // sectors per cluster
    nFatent: nat,    // number of FAT entries, two more than the number of clusters
    database: nat,   // first sector of cluster 2
    nRootdir: nat,   // entries of the static root directory, 0 on FAT32
    dirbase: nat)    // its first sector; on FAT32 the first cluster of the root directory

  const DISK_ERROR: nat := 0xFFFF_FFFF
  const END_MARK: nat := 0x0FFF_FFFF

  predicate InFat(g: Geometry, s: int) {
    g.fatbase <= s < g.fatbase + g.fsize
  }

  /** The second copy of the FAT. */
  predicate InMirror(g: Geometry, s: int) {
    g.nFats == 2 && g.fatbase + g.fsize <= s < g.fatbase + 2 * g.fsize
  }

  /** Bytes that n packed entries take. */
  function FatSpan(t: FatType, n: nat): nat {
    match t
    case Fat12 => (3 * n + 1) / 2
    case Fat16 => 2 * n
    case Fat32 => 4 * n
  }

  /** How many values an entry can hold. */
  function EntryRange(t: FatType): nat {
    match t
    case Fat12 => 0x1000
    case Fat16 => 0x1_0000
    case Fat32 => 0x1000_0000
  }

  /** v cut to the width of an entry. */
  function Truncate(t: FatType, v: nat): (r: nat)
    ensures r < EntryRange(t)
    ensures v < EntryRange(t) ==> r == v
    ensures v == END_MARK ==> r == EntryRange(t) - 1
  {
    match t
    case Fat12 => v % 0x1000
    case Fat16 => v % 0x1_0000
    case Fat32 => v % 0x1000_0000
  }

  /** What the window and the entry codec need of a geometry on a disk of the given size. */
  predicate FatFits(g: Geometry, sectors: nat) {
    && 1 <= g.fatbase
    && 1 <= g.nFats <= 2
    && g.fatbase + (if g.nFats == 2 then 2 * g.fsize else g.fsize) <= sectors
    && 3 <= g.nFatent <= EntryRange(g.fatType) - 1
    && FatSpan(g.fatType, g.nFatent) <= 512 * g.fsize
  }

  /** Address of the first byte of entry c. */
  function EntryAt(t: FatType, c: nat): nat {
    match t
    case Fat12 => c + c / 2
    case Fat16 => 2 * c
    case Fat32 => 4 * c
  }

  /** Bytes an entry touches. */
  function EntryWidth(t: FatType): nat {
    if t == Fat32 then 4 else 2
  }

  /** Sector k of the FAT whose bytes are b. */
  function ImageSector(b: seq<Byte>, k: nat): (s: Sector)
    requires 512 * k + 512 <= |b|
  {
    b[512 * k..512 * k + 512]
  }

  /** The 12-bit value an even or odd entry has in its two bytes. */
  function Unpack12(odd: bool, b0: Byte, b1: Byte): (v: nat)
    ensures v < 0x1000
  {
    var wc := b0 + 256 * b1;
    if odd then wc / 16 else wc % 0x1000
  }

  function LoadWord(b: seq<Byte>, a: nat): (w: nat)
    requires a + 2 <= |b|
    ensures w < 0x1_0000
  {
    b[a] as int + 0x100 * (b[a + 1] as int)
  }

  function LoadDword(b: seq<Byte>, a: nat): (w: nat)
    requires a + 4 <= |b|
    ensures w < 0x1_0000_0000
  {
    LoadWord(b, a) + 0x1_0000 * LoadWord(b, a + 2)
  }

  /** The value of entry c in the bytes b of a FAT. */
  function Entry(b: seq<Byte>, t: FatType, c: nat): (v: nat)
    requires EntryAt(t, c) + EntryWidth(t) <= |b|
    ensures v < EntryRange(t)
  {
    var a := EntryAt(t, c);
    match t
    case Fat12 => Unpack12(c % 2 == 1, b[a], b[a + 1])
    case Fat16 => LoadWord(b, a)
    case Fat32 => LoadDword(b, a) % 0x1000_0000
  }

  lemma EntryInside(t: FatType, n: nat, c: nat, size: nat)
    requires c < n && FatSpan(t, n) <= size
    ensures EntryAt(t, c) + EntryWidth(t) <= size
  {
  }

  /** A table of n entries as an array of links. */
  function Links(b: seq<Byte>, t: FatType, n: nat): (f: seq<nat>)
    requires FatSpan(t, n) <= |b|
    ensures |f| == n
  {
    seq(n, c requires 0 <= c < n => EntryInside(t, n, c, |b|); Entry(b, t, c))
  }

  lemma LinkIsEntry(b: seq<Byte>, t: FatType, n: nat, c: nat)
    requires FatSpan(t, n) <= |b| && c < n
    ensures EntryAt(t, c) + EntryWidth(t) <= |b| && Links(b, t, n)[c] == Entry(b, t, c)
  {
    EntryInside(t, n, c, |b|);
  }

  /** First byte of a 12-bit entry after storing val over old byte p. */
  function Low12(odd: bool, p: Byte, val: nat): Byte {
    if odd then p % 16 + (val % 16) * 16 else val % 256
  }

  /** Second byte of a 12-bit entry after storing val over old byte p. */
  function High12(odd: bool, p: Byte, val: nat): Byte {
    if odd then (val / 16) % 256 else (p / 16) * 16 + (val / 256) % 16
  }

  /** Bitwise or of two four-bit numbers. */
  function Or4(a: nat, b: nat): (r: nat)
    requires a < 16 && b < 16
    ensures r < 16
    ensures b == 0 ==> r == a
  {
    var v := a as bv4;
    assert v | 0 == v;
    (v | (b as bv4)) as nat
  }

  /** The 32-bit word stored for val: its low 28 bits, its top four or-ed with those on the volume. */
  function Merge32(old3: Byte, val: nat): (w: nat)
    requires val < 0x1_0000_0000
    ensures w < 0x1_0000_0000 && w % 0x1000_0000 == val % 0x1000_0000
    ensures val < 0x1000_0000 ==> w / 0x1000_0000 == old3 / 16
  {
    val % 0x1000_0000 + Or4(old3 / 16, val / 0x1000_0000) * 0x1000_0000
  }

  function StoreWord(b: seq<Byte>, a: nat, w: nat): (r: seq<Byte>)
    requires a + 2 <= |b|
    ensures |r| == |b|
  {
    b[a := w % 256][a + 1 := (w / 0x100) % 256]
  }

  function StoreDword(b: seq<Byte>, a: nat, w: nat): (r: seq<Byte>)
    requires a + 4 <= |b|
    ensures |r| == |b|
  {
    b[a := w % 256][a + 1 := (w / 0x100) % 256][a + 2 := (w / 0x1_0000) % 256][a + 3 := (w / 0x100_0000) % 256]
  }

  /** What put_fat leaves of the bytes b when it stores val in entry c. */
  function StoreEntry(b: seq<Byte>, t: FatType, c: nat, val: nat): (r: seq<Byte>)
    requires EntryAt(t, c) + EntryWidth(t) <= |b| && val < 0x1_0000_0000
    ensures |r| == |b|
  {
    var a := EntryAt(t, c);
    match t
    case Fat12 =>
      b[a := Low12(c % 2 == 1, b[a], val)][a + 1 := High12(c % 2 == 1, b[a + 1], val)]
    case Fat16 => StoreWord(b, a, val)
    case Fat32 => StoreDword(b, a, Merge32(b[a + 3], val))
  }

  lemma Bytes32(w: nat)
    requires w < 0x1_0000_0000
    ensures w % 256 + 0x100 * ((w / 0x100) % 256) + 0x1_0000 * ((w / 0x1_0000) % 256)
            + 0x100_0000 * ((w / 0x100_0000) % 256) == w
  {
  }

  /** Two and four bytes as a number, the lowest byte first. */
  ghost predicate WordAt(b: seq<Byte>, a: nat, v: nat) {
    a + 2 <= |b| && v == b[a] as int + 0x100 * b[a + 1] as int
  }

  ghost predicate DwordAt(b: seq<Byte>, a: nat, v: nat) {
    a + 4 <= |b| && v == b[a] as int + 0x100 * b[a + 1] as int + 0x1_0000 * b[a + 2] as int + 0x100_0000 * b[a + 3] as int
  }

  lemma StoredInOrder(b: seq<Byte>, a: nat, v: nat)
    ensures a + 2 <= |b| ==> WordAt(b, a, LoadWord(b, a)) && (v < 0x1_0000 ==> WordAt(StoreWord(b, a, v), a, v))
    ensures a + 4 <= |b| ==> DwordAt(b, a, LoadDword(b, a)) && (v < 0x1_0000_0000 ==> DwordAt(StoreDword(b, a, v), a, v))
  {
    if a + 4 <= |b| && v < 0x1_0000_0000 {
      DwordReadsBack(b, a, v);
    }
  }

  /** Where a FAT12 table has the bits of entry c: an even entry has the low four bits of its second byte, an odd one
      the high four of its first. */
  lemma EntryLayout12(b: seq<Byte>, c: nat)
    ensures c % 2 == 0 && c / 2 * 3 + 2 <= |b| ==> Entry(b, Fat12, c) == b[c / 2 * 3] as int + 0x100 * (b[c / 2 * 3 + 1] as int % 16)
    ensures c % 2 == 1 && c / 2 * 3 + 3 <= |b| ==> Entry(b, Fat12, c) == b[c / 2 * 3 + 1] as int / 16 + 0x10 * b[c / 2 * 3 + 2] as int
  {
  }

  /** Where a FAT16 or FAT32 table has the bytes of entry c; the top four bits of the latter do not count. */
  lemma EntryLayout(b: seq<Byte>, c: nat)
    ensures 2 * c + 2 <= |b| ==> WordAt(b, 2 * c, Entry(b, Fat16, c))
    ensures 4 * c + 4 <= |b| ==> DwordAt(b[4 * c + 3 := b[4 * c + 3] as int % 16], 4 * c, Entry(b, Fat32, c))
  {
    if 4 * c + 4 <= |b| {
      LowBits(b[4 * c] as int + 0x100 * b[4 * c + 1] as int + 0x1_0000 * b[4 * c + 2] as int, b[4 * c + 3] as int);
    }
  }

  lemma LowBits(low: nat, high: Byte)
    requires low < 0x100_0000
    ensures (low + 0x100_0000 * high as int) % 0x1000_0000 == low + 0x100_0000 * (high as int % 16)
  {
  }

  lemma DwordReadsBack(b: seq<Byte>, a: nat, w: Dword)
    requires a + 4 <= |b|
    ensures LoadDword(StoreDword(b, a, w), a) == w
    ensures forall i :: 0 <= i < |b| && !(a <= i < a + 4) ==> StoreDword(b, a, w)[i] == b[i]
  {
    Bytes32(w);
  }

  lemma WordReadsBack(b: seq<Byte>, a: nat, w: nat)
    requires a + 2 <= |b| && w < 0x1_0000
    ensures LoadWord(StoreWord(b, a, w), a) == w
    ensures forall i :: 0 <= i < |b| && !(a <= i < a + 2) ==> StoreWord(b, a, w)[i] == b[i]
  {
  }

  lemma Drop4096(x: nat, q: nat)
    requires x < 0x1000
    ensures (x + 0x1000 * q) % 0x1000 == x
  {
  }

  lemma Low12Bits(val: nat)
    ensures val % 256 + 256 * ((val / 256) % 16) == val % 0x1000
  {
  }

  lemma OddReadsBack(b0: Byte, b1: Byte, val: nat)
    ensures Unpack12(true, Low12(true, b0, val), High12(true, b1, val)) == val % 0x1000
  {
    assert val % 16 + 16 * ((val / 16) % 256) == val % 0x1000;
  }

  lemma EvenReadsBack(b0: Byte, b1: Byte, val: nat)
    ensures Unpack12(false, Low12(false, b0, val), High12(false, b1, val)) == val % 0x1000
  {
    var x: nat := val % 256 + 256 * ((val / 256) % 16);
    Low12Bits(val);
    Drop4096(x, b1 / 16);
  }

  /** An odd entry shares its first byte with the even entry before it. */
  lemma OddKeepsNeighbour(b0: Byte, b1: Byte, val: nat)
    ensures Unpack12(false, b0, Low12(true, b1, val)) == Unpack12(false, b0, b1)
  {
    var x: nat := b0 + 256 * (b1 % 16);
    Drop4096(x, b1 / 16);
    Drop4096(x, val % 16);
  }

  /** An even entry shares its second byte with the odd entry after it. */
  lemma EvenKeepsNeighbour(b0: Byte, b1: Byte, val: nat)
    ensures Unpack12(true, High12(false, b0, val), b1) == Unpack12(true, b0, b1)
  {
  }

  lemma StoreThenRead12(b: seq<Byte>, c: nat, val: nat, k: nat)
    requires EntryAt(Fat12, c) + 2 <= |b| && EntryAt(Fat12, k) + 2 <= |b| && val < 0x1_0000_0000
    ensures Entry(StoreEntry(b, Fat12, c, val), Fat12, k) ==
            if k == c then val % 0x1000 else Entry(b, Fat12, k)
  {
    var a := EntryAt(Fat12, c);
    if k == c {
      OddReadsBack(b[a], b[a + 1], val);
      EvenReadsBack(b[a], b[a + 1], val);
    } else if c % 2 == 1 && k == c - 1 {
      OddKeepsNeighbour(b[a - 1], b[a], val);
    } else if c % 2 == 0 && k == c + 1 {
      EvenKeepsNeighbour(b[a + 1], b[a + 2], val);
    }
  }

  lemma StoreThenRead16(b: seq<Byte>, c: nat, val: nat, k: nat)
    requires 2 * c + 2 <= |b| && 2 * k + 2 <= |b| && val < 0x1_0000_0000
    ensures Entry(StoreEntry(b, Fat16, c, val), Fat16, k) ==
            if k == c then val % 0x1_0000 else Entry(b, Fat16, k)
  {
    assert val % 256 + 0x100 * ((val / 0x100) % 256) == val % 0x1_0000;
  }

  lemma StoreThenRead32(b: seq<Byte>, c: nat, val: nat, k: nat)
    requires 4 * c + 4 <= |b| && 4 * k + 4 <= |b| && val < 0x1_0000_0000
    ensures Entry(StoreEntry(b, Fat32, c, val), Fat32, k) ==
            if k == c then val % 0x1000_0000 else Entry(b, Fat32, k)
  {
    var w := Merge32(b[4 * c + 3], val);
    Bytes32(w);
    assert LoadDword(StoreDword(b, 4 * c, w), 4 * c) == w;
    hide Merge32;
  }

  /** Entry codec: the stored entry reads back truncated to its width, and every other entry is
      unchanged, also the neighbour that shares a byte with it. */
  lemma StoreThenRead(b: seq<Byte>, t: FatType, c: nat, val: nat, k: nat)
    requires EntryAt(t, c) + EntryWidth(t) <= |b| && EntryAt(t, k) + EntryWidth(t) <= |b|
    requires val < 0x1_0000_0000
    ensures Entry(StoreEntry(b, t, c, val), t, k) ==
            if k == c then Truncate(t, val) else Entry(b, t, k)
  {
    match t
    case Fat12 => StoreThenRead12(b, c, val, k);
    case Fat16 => StoreThenRead16(b, c, val, k);
    case Fat32 => StoreThenRead32(b, c, val, k);
  }

  /** The reserved top four bits of a FAT32 entry survive the store of a 28-bit value. */
  lemma StoreKeepsReservedBits(b: seq<Byte>, c: nat, val: nat)
    requires 4 * c + 4 <= |b| && val <= END_MARK
    ensures StoreEntry(b, Fat32, c, val)[4 * c + 3] / 16 == b[4 * c + 3] / 16
  {
    var w := Merge32(b[4 * c + 3], val);
    assert (w / 0x100_0000) % 256 == w / 0x100_0000;
    assert w / 0x100_0000 / 16 == w / 0x1000_0000;
  }

  /** Storing one entry of the table is updating one element of the array of links. */
  lemma StoreIsUpdate(b: seq<Byte>, t: FatType, n: nat, c: nat, val: nat)
    requires FatSpan(t, n) <= |b| && c < n && val < 0x1_0000_0000
    ensures EntryAt(t, c) + EntryWidth(t) <= |b|
    ensures Links(StoreEntry(b, t, c, val), t, n) == Links(b, t, n)[c := Truncate(t, val)]
  {
    EntryInside(t, n, c, |b|);
    forall k: nat | k < n
      ensures Links(StoreEntry(b, t, c, val), t, n)[k] == Links(b, t, n)[c := Truncate(t, val)][k]
    {
      EntryInside(t, n, k, |b|);
      StoreThenRead(b, t, c, val, k);
    }
  }

  /** Setting one byte of the FAT changes one byte of one sector. */
  lemma SetImageByte(b: seq<Byte>, i: nat, v: Byte, k: nat)
    requires i < |b| && 512 * k + 512 <= |b|
    ensures ImageSector(b[i := v], k) ==
            if k == i / 512 then ImageSector(b, k)[i % 512 := v] else ImageSector(b, k)
  {
  }

  lemma LoadsInSlice(b: seq<Byte>, lo: nat, o: nat)
    requires lo + 512 <= |b|
    ensures o + 2 <= 512 ==> LoadWord(b[lo..lo + 512], o) == LoadWord(b, lo + o)
    ensures o + 4 <= 512 ==> LoadDword(b[lo..lo + 512], o) == LoadDword(b, lo + o)
  {
  }

  /** A 16-bit entry lies in one sector. */
  lemma WordInSector(b: seq<Byte>, c: nat)
    requires 2 * c + 2 <= |b| && |b| % 512 == 0
    ensures 512 * (c / 256) + 512 <= |b| && c * 2 % 512 + 2 <= 512
    ensures LoadWord(ImageSector(b, c / 256), c * 2 % 512) == LoadWord(b, 2 * c)
  {
    assert 512 * (c / 256) + c * 2 % 512 == 2 * c;
    hide LoadWord;
    LoadsInSlice(b, 512 * (c / 256), c * 2 % 512);
  }

  /** A 32-bit entry lies in one sector. */
  lemma DwordInSector(b: seq<Byte>, c: nat)
    requires 4 * c + 4 <= |b| && |b| % 512 == 0
    ensures 512 * (c / 128) + 512 <= |b| && c * 4 % 512 + 4 <= 512
    ensures LoadDword(ImageSector(b, c / 128), c * 4 % 512) == LoadDword(b, 4 * c)
  {
    assert 512 * (c / 128) + c * 4 % 512 == 4 * c;
    hide LoadDword;
    LoadsInSlice(b, 512 * (c / 128), c * 4 % 512);
  }

  /** The bytes b when only the first byte of a 12-bit entry could be stored. */
  function HalfStore12(b: seq<Byte>, c: nat, val: nat): (r: seq<Byte>)
    requires EntryAt(Fat12, c) + 2 <= |b|
    ensures |r| == |b|
  {
    b[EntryAt(Fat12, c) := Low12(c % 2 == 1, b[EntryAt(Fat12, c)], val)]
  }

  /** A store that stopped half way has changed no other entry. */
  lemma HalfStoreKeepsOthers(b: seq<Byte>, n: nat, c: nat, val: nat)
    requires FatSpan(Fat12, n) <= |b| && c < n && EntryAt(Fat12, c) + 2 <= |b|
    ensures forall k :: 0 <= k < n && k != c ==>
              Links(HalfStore12(b, c, val), Fat12, n)[k] == Links(b, Fat12, n)[k]
  {
    forall k | 0 <= k < n && k != c
      ensures Links(HalfStore12(b, c, val), Fat12, n)[k] == Links(b, Fat12, n)[k]
    {
      EntryInside(Fat12, n, k, |b|);
      var a := EntryAt(Fat12, c);
      if c % 2 == 1 && k == c - 1 {
        OddKeepsNeighbour(b[a - 1], b[a], val);
      }
    }
  }
}
