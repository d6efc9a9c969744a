/** A directory table as a sequence of 32-byte entries, and as a finite map from names to slots. */
module FatEntries {
  import opened Basics
  import opened FatCodec
  import opened FatChains
  import opened FatSectors

  type Entry = e: seq<Byte> | |e| == 32 witness seq(32, i => 0)

  /** The 11 bytes of a short name as they are stored. */
  type Name = n: seq<Byte> | |n| == 11 witness seq(11, i => 0)

  const DELETED: Byte := 0xE5
  const AM_VOL: nat := 0x08

  predicate Blank(e: Entry) {
    e[0] == DELETED || e[0] == 0
  }

  /** A name that marks neither a deleted entry nor the end of the table. */
  predicate Proper(n: Name) {
    n[0] != DELETED && n[0] != 0
  }

  /** The entry is a file or directory, not a volume label, of that name. */
  predicate Matches(e: Entry, n: Name) {
    e[11] / AM_VOL % 2 == 0 && e[..11] == n
  }

  /** What dir_find finds: the first entry of the name before the end of the table. */
  function Lookup(es: seq<Entry>, n: Name): (r: Option<nat>)
    ensures r.Some? ==> r.value < |es| && Matches(es[r.value], n) && es[r.value][0] != 0
  {
    if es == [] || es[0][0] == 0 then None
    else if Matches(es[0], n) then Some(0)
    else match Lookup(es[1..], n) case None => None case Some(k) => Some(k + 1)
  }

  /** All entries after the first 0 byte entry are 0. */
  ghost predicate TailZero(es: seq<Entry>) {
    forall i, j :: 0 <= i < j < |es| && es[i][0] == 0 ==> es[j][0] == 0
  }

  /** No two entries have the same name. */
  ghost predicate NamesDiffer(es: seq<Entry>) {
    forall i, j, n :: 0 <= i < j < |es| && Proper(n) && Matches(es[i], n) ==> !Matches(es[j], n)
  }

  /** The first entry that can be used for a new name. */
  function FirstBlank(es: seq<Entry>): (k: nat)
    ensures k <= |es|
  {
    if es == [] || Blank(es[0]) then 0 else 1 + FirstBlank(es[1..])
  }

  lemma {:induction false} FirstBlankIs(es: seq<Entry>, k: nat)
    requires k <= |es| && (forall i :: 0 <= i < k ==> !Blank(es[i])) && (k < |es| ==> Blank(es[k]))
    ensures k == FirstBlank(es)
  {
    if k > 0 {
      FirstBlankIs(es[1..], k - 1);
    }
  }

  lemma {:induction false} FirstBlankSplits(es: seq<Entry>)
    ensures forall i :: 0 <= i < FirstBlank(es) ==> es[i][0] != 0xE5 && es[i][0] != 0
    ensures FirstBlank(es) < |es| ==> es[FirstBlank(es)][0] == 0xE5 || es[FirstBlank(es)][0] == 0
  {
    if es != [] && !Blank(es[0]) {
      FirstBlankSplits(es[1..]);
      forall i | 0 <= i < FirstBlank(es)
        ensures es[i][0] != 0xE5 && es[i][0] != 0
      {
        assert i > 0 ==> es[i] == es[1..][i - 1];
      }
    }
  }

  /** dir_find, by position: where it stops, and that nothing before matches. */
  lemma {:induction false} LookupIs(es: seq<Entry>, n: Name, k: nat)
    requires k <= |es| && forall i :: 0 <= i < k ==> es[i][0] != 0 && !Matches(es[i], n)
    ensures k == |es| || es[k][0] == 0 ==> Lookup(es, n) == None
    ensures k < |es| && es[k][0] != 0 && Matches(es[k], n) ==> Lookup(es, n) == Some(k)
  {
    if k > 0 {
      LookupIs(es[1..], n, k - 1);
    }
  }

  lemma {:induction false} LookupSplits(es: seq<Entry>, n: Name)
    ensures match Lookup(es, n)
            case Some(k) => forall i :: 0 <= i < k ==> es[i][0] != 0 && !Matches(es[i], n)
            case None => forall i :: 0 <= i < |es| && (forall j :: 0 <= j <= i ==> es[j][0] != 0) ==> !Matches(es[i], n)
  {
    if es != [] && es[0][0] != 0 && !Matches(es[0], n) {
      LookupSplits(es[1..], n);
      match Lookup(es, n)
      case Some(k) =>
        forall i | 0 <= i < k
          ensures es[i][0] != 0 && !Matches(es[i], n)
        {
          assert i > 0 ==> es[i] == es[1..][i - 1];
        }
      case None =>
        forall i | 0 <= i < |es| && (forall j :: 0 <= j <= i ==> es[j][0] != 0)
          ensures !Matches(es[i], n)
        {
          assert i > 0 ==> es[i] == es[1..][i - 1] && forall j :: 0 <= j <= i - 1 ==> es[1..][j] == es[j + 1];
        }
    }
  }

  /** Byte 11 of an entry is the attribute, of which bit 3 marks a volume label; the other bits, that of a
      sub-directory among them, do not matter for a search. */
  ghost predicate IsNamed(e: Entry, n: Name) {
    (forall i :: 0 <= i < 11 ==> e[i] == n[i]) && (e[11] as bv8) & 0x08 == 0
  }

  /** Entry k is in use and has the name, and none before it has the name or ends the table. */
  ghost predicate FoundAt(es: seq<Entry>, n: Name, k: nat) {
    && k < |es| && IsNamed(es[k], n) && es[k][0] != 0
    && forall i :: 0 <= i < k ==> !IsNamed(es[i], n) && es[i][0] != 0
  }

  lemma NamedMatches(e: Entry, n: Name)
    ensures Matches(e, n) <==> IsNamed(e, n)
  {
    if IsNamed(e, n) {
      assert e[..11] == n;
    }
    assert forall i :: 0 <= i < 11 ==> e[i] == e[..11][i];
  }

  /** What a search finds, in terms of the bytes of the entries. */
  lemma LookupMeans(es: seq<Entry>, n: Name, k: nat)
    ensures Lookup(es, n) == Some(k) <==> FoundAt(es, n, k)
    ensures Lookup(es, n) == None <==> forall i :: 0 <= i < |es| ==> !FoundAt(es, n, i)
  {
    hide IsNamed, Matches;
    LookupSplits(es, n);
    forall i | 0 <= i < |es|
      ensures Matches(es[i], n) <==> IsNamed(es[i], n)
    {
      NamedMatches(es[i], n);
    }
    forall i: nat | i < |es| && FoundAt(es, n, i)
      ensures Lookup(es, n) == Some(i)
    {
      LookupIs(es, n, i);
    }
    if Lookup(es, n).Some? {
      assert FoundAt(es, n, Lookup(es, n).value);
    }
  }

  /** Files and directories are found, whether or not they are archived, and volume labels are not. */
  lemma AttributeDecides(n: Name, a: Byte)
    requires Proper(n)
    ensures a == 0x00 || a == 0x10 || a == 0x20 || a == 0x30 ==> Lookup([NewEntry(n)[11 := a]], n) == Some(0)
    ensures a == 0x08 || a == 0x28 ==> Lookup([NewEntry(n)[11 := a]], n) == None
  {
    hide Lookup, NewEntry, IsNamed, Matches;
    var e: Entry := NewEntry(n)[11 := a];
    assert forall i :: 0 <= i < 11 ==> e[i] == NewEntry(n)[..11][i];
    NamedByBit(e, n);
    OneEntry(e, n);
    LabelBit(a);
    assert e[11] == a;
  }

  lemma NamedByBit(e: Entry, n: Name)
    requires forall i :: 0 <= i < 11 ==> e[i] == n[i]
    ensures IsNamed(e, n) <==> (e[11] as bv8) & 0x08 == 0
  {
  }

  lemma LabelBit(x: Byte)
    ensures (x as bv8) & 0x08 == 0 <==> x / 8 % 2 == 0
  {
  }

  lemma OneEntry(e: Entry, n: Name)
    requires e[0] != 0
    ensures Lookup([e], n) == if IsNamed(e, n) then Some(0) else None
  {
    NamedMatches(e, n);
    assert [e][1..] == [];
  }

  /** In a table whose tail is zero, a name is found exactly when some entry of the table has it. */
  lemma LookupFinds(es: seq<Entry>, n: Name)
    requires TailZero(es) && Proper(n)
    ensures Lookup(es, n) == None <==> forall i :: 0 <= i < |es| ==> !Matches(es[i], n)
    ensures Lookup(es, n).Some? ==> forall i :: 0 <= i < Lookup(es, n).value ==> !Matches(es[i], n)
  {
    LookupSplits(es, n);
    forall i | 0 <= i < |es| && Matches(es[i], n)
      ensures forall j :: 0 <= j <= i ==> es[j][0] != 0
    {
      assert es[i][0] == es[i][..11][0] == n[0];
    }
  }

  /** Two tables that agree on a name, entry by entry where one of them has it, look it up alike. */
  lemma LookupSame(a: seq<Entry>, b: seq<Entry>, n: Name)
    requires TailZero(a) && TailZero(b) && Proper(n)
    requires forall i :: 0 <= i < |a| && Matches(a[i], n) ==> i < |b| && Matches(b[i], n)
    requires forall i :: 0 <= i < |b| && Matches(b[i], n) ==> i < |a| && Matches(a[i], n)
    ensures Lookup(a, n) == Lookup(b, n)
  {
    LookupFinds(a, n);
    LookupFinds(b, n);
  }

  /** The entry that dir_register writes. */
  function NewEntry(n: Name): (e: Entry)
    ensures e[..11] == n && forall i :: 11 <= i < 32 ==> e[i] == 0
  {
    n + seq(21, i => 0)
  }

  lemma NewEntryMatches(n: Name, m: Name)
    ensures Matches(NewEntry(n), m) <==> m == n
    ensures NewEntry(n)[0] == n[0]
  {
    assert NewEntry(n)[0] == NewEntry(n)[..11][0];
  }

  function ZeroEntries(k: nat): (r: seq<Entry>)
    ensures |r| == k
  {
    seq(k, i => seq(32, j => 0))
  }

  /** Zero entries at the end of a table do not matter. */
  lemma StretchKeepsMap(es: seq<Entry>, k: nat)
    requires TailZero(es)
    ensures TailZero(es + ZeroEntries(k)) && (NamesDiffer(es) ==> NamesDiffer(es + ZeroEntries(k)))
    ensures forall n: Name :: Proper(n) ==> Lookup(es + ZeroEntries(k), n) == Lookup(es, n)
  {
    var t := es + ZeroEntries(k);
    forall i, n: Name | |es| <= i < |t| && Proper(n)
      ensures t[i][0] == 0 && !Matches(t[i], n)
    {
      assert t[i][0] == t[i][..11][0];
    }
    forall n: Name | Proper(n)
      ensures Lookup(t, n) == Lookup(es, n)
    {
      LookupSame(t, es, n);
    }
  }

  /** dir_register of an absent name: it is found at the written slot, every other lookup is unchanged, and
      the table stays in order. */
  lemma RegisterIsInsert(es: seq<Entry>, n: Name, k: nat)
    requires TailZero(es) && Proper(n) && Lookup(es, n) == None
    requires k == FirstBlank(es) < |es|
    ensures var t := es[k := NewEntry(n)];
            && TailZero(t) && Lookup(t, n) == Some(k)
            && (forall m: Name :: Proper(m) && m != n ==> Lookup(t, m) == Lookup(es, m))
            && (NamesDiffer(es) ==> NamesDiffer(t))
  {
    var t := es[k := NewEntry(n)];
    FirstBlankSplits(es);
    assert Blank(es[k]) && forall i :: 0 <= i < k ==> !Blank(es[i]);
    LookupFinds(es, n);
    RegisterTail(es, n, k);
    forall i, m: Name | 0 <= i < |es| && Proper(m)
      ensures Matches(t[i], m) <==> if i == k then m == n else Matches(es[i], m)
    {
      NewEntryMatches(n, m);
    }
    LookupIs(t, n, k);
    NewEntryMatches(n, n);
    forall m: Name | Proper(m) && m != n
      ensures Lookup(t, m) == Lookup(es, m)
    {
      BlankMatchesNone(es[k], m);
      LookupSame(t, es, m);
    }
  }

  lemma BlankMatchesNone(e: Entry, n: Name)
    requires Blank(e) && Proper(n)
    ensures !Matches(e, n)
  {
    assert e[0] == e[..11][0];
  }

  lemma RegisterTail(es: seq<Entry>, n: Name, k: nat)
    requires TailZero(es) && Proper(n) && k == FirstBlank(es) < |es|
    ensures TailZero(es[k := NewEntry(n)])
  {
    FirstBlankSplits(es);
    NewEntryMatches(n, n);
  }

  /** dir_remove: the slot is free, every other lookup is unchanged, and the name is found no more exactly
      when no other entry had it. */
  lemma RemoveIsDelete(es: seq<Entry>, n: Name, k: nat)
    requires TailZero(es) && Proper(n) && Lookup(es, n) == Some(k)
    ensures var t := es[k := es[k][0 := DELETED]];
            && TailZero(t)
            && (forall m: Name :: Proper(m) && m != n ==> Lookup(t, m) == Lookup(es, m))
            && (Lookup(t, n) == None <==> forall i :: 0 <= i < |es| && i != k ==> !Matches(es[i], n))
            && (NamesDiffer(es) ==> NamesDiffer(t) && Lookup(t, n) == None)
  {
    var t := es[k := es[k][0 := DELETED]];
    assert Matches(es[k], n);
    forall m: Name | Proper(m)
      ensures !Matches(t[k], m)
    {
      BlankMatchesNone(t[k], m);
    }
    forall m: Name | Proper(m) && m != n
      ensures Lookup(t, m) == Lookup(es, m)
    {
      LookupSame(t, es, m);
    }
    LookupFinds(t, n);
    assert forall i :: 0 <= i < |es| && i != k ==> t[i] == es[i];
    if forall i :: 0 <= i < |es| && i != k ==> !Matches(es[i], n) {
      assert forall i :: 0 <= i < |t| ==> !Matches(t[i], n);
    }
    if NamesDiffer(es) {
      forall i | 0 <= i < |es| && i != k
        ensures !Matches(es[i], n)
      {
      }
    }
  }

  // ---------- the entries in the sectors of a table ----------

  /** Entry k of the table that occupies the sectors s. */
  function SlotOf(d: seq<Sector>, s: seq<nat>, k: nat): Entry
    requires k / 16 < |s| && s[k / 16] < |d|
  {
    d[s[k / 16]][32 * (k % 16)..32 * (k % 16) + 32]
  }

  function TableOf(d: seq<Sector>, s: seq<nat>): (r: seq<Entry>)
    requires InDisk(d, s)
    ensures |r| == 16 * |s|
  {
    seq(16 * |s|, k requires 0 <= k < 16 * |s| => SlotOf(d, s, k))
  }

  lemma TableAt(d: seq<Sector>, s: seq<nat>, j: nat, r: nat)
    requires InDisk(d, s) && j < |s| && r < 16
    ensures 16 * j + r < |TableOf(d, s)| && TableOf(d, s)[16 * j + r] == d[s[j]][32 * r..32 * r + 32]
  {
    assert (16 * j + r) / 16 == j && (16 * j + r) % 16 == r;
  }

  /** Bytes stored inside one entry change that entry only. */
  lemma TablePoked(d: seq<Sector>, s: seq<nat>, k: nat, o: nat, b: seq<Byte>)
    requires InDisk(d, s) && Distinct(s) && k / 16 < |s| && o + |b| <= 32
    ensures var e := d[s[k / 16] := Splice(d[s[k / 16]], 32 * (k % 16) + o, b)];
            InDisk(e, s) && k < |TableOf(d, s)| && TableOf(e, s) == TableOf(d, s)[k := Splice(TableOf(d, s)[k], o, b)]
  {
    hide Splice;
    var x := s[k / 16];
    var e := d[x := Splice(d[x], 32 * (k % 16) + o, b)];
    var t, u := TableOf(d, s), TableOf(e, s);
    forall i | 0 <= i < |t|
      ensures u[i] == t[k := Splice(t[k], o, b)][i]
    {
      if i / 16 == k / 16 {
        SplicedEntry(d[x], k % 16, o, b, i % 16);
        assert i % 16 == k % 16 ==> i == k;
      } else {
        assert s[i / 16] != x;
      }
    }
  }

  lemma SplicedEntry(b: Sector, r: nat, o: nat, part: seq<Byte>, q: nat)
    requires r < 16 && q < 16 && o + |part| <= 32
    ensures Splice(b, 32 * r + o, part)[32 * q..32 * q + 32] ==
            if q == r then Splice(b[32 * r..32 * r + 32], o, part) else b[32 * q..32 * q + 32]
  {
    hide Splice;
    var x, lo := 32 * r + o, 32 * q;
    var got := Splice(b, x, part)[lo..lo + 32];
    var want := if q == r then Splice(b[lo..lo + 32], o, part) else b[lo..lo + 32];
    forall i | 0 <= i < 32
      ensures got[i] == want[i]
    {
      SpliceAt(b, x, part, lo + i);
      if q == r {
        SpliceAt(b[lo..lo + 32], o, part, i);
      }
    }
  }

  /** A table that has got more sectors, filled with zero. */
  lemma TableStretched(d: seq<Sector>, s: seq<nat>, e: seq<Sector>, more: seq<nat>)
    requires InDisk(d, s) && InDisk(e, s) && InDisk(e, s + more) && forall j :: 0 <= j < |s| ==> e[s[j]] == d[s[j]]
    requires forall j :: 0 <= j < |more| ==> more[j] < |e| && forall i :: 0 <= i < 512 ==> e[more[j]][i] == 0
    ensures TableOf(e, s + more) == TableOf(d, s) + ZeroEntries(16 * |more|)
  {
    var t, u := TableOf(d, s) + ZeroEntries(16 * |more|), TableOf(e, s + more);
    forall k | 0 <= k < |u|
      ensures u[k] == t[k]
    {
      if k < 16 * |s| {
        assert (s + more)[k / 16] == s[k / 16];
      } else {
        assert (s + more)[k / 16] == more[k / 16 - |s|];
      }
    }
  }
}
