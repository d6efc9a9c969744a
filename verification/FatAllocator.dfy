/** The cluster allocator of FatFs: create_chain and remove_chain through the window, and
    what any run of them keeps of the volume's chains and of its free-cluster count. */
module FatAllocator {
  import opened FatCodec
  import opened FatVolume
  import opened FatChains
  import opened FatSectors

  const UNKNOWN_FREE: nat := 0xFFFF_FFFF

  function EndValue(g: Geometry): nat {
    Truncate(g.fatType, END_MARK)
  }

  /** How create_chain counts a cluster it has taken. */
  function CountTaken(free: Dword): Dword {
    if free == UNKNOWN_FREE then free else if free == 0 then 0xFFFF_FFFF else free - 1
  }

  /** A known free-cluster count is the number of free clusters. */
  ghost predicate CountIsRight(free: Dword, f: Fat) {
    |f| >= 2 && (free == UNKNOWN_FREE || free == FreeCount(f))
  }

  ghost predicate NoneIsFree(f: Fat) {
    forall c :: InRange(f, c) ==> f[c] != 0
  }

  /** Some entry is 1, which FatFs takes for an internal error. */
  ghost predicate HasOne(f: Fat) {
    exists c :: InRange(f, c) && f[c] == 1
  }

  ghost predicate AllTaken(f: Fat, lo: nat, hi: nat) {
    hi <= |f| && forall c :: lo <= c < hi ==> f[c] != 0
  }

  /** A known count goes down by one, in 32 bits. */
  lemma CountsDown(free: Dword)
    ensures CountTaken(free) == if free == 0xFFFF_FFFF then free else (free + 0xFFFF_FFFF) % 0x1_0000_0000
  {
  }

  /** Cluster c is the first that is free behind cluster scl, around the table. */
  ghost predicate NextFree(f: Fat, scl: nat, c: nat) {
    && c < |f| && f[c] == 0
    && if c > scl then AllTaken(f, scl + 1, c) else AllTaken(f, scl + 1, |f|) && AllTaken(f, 2, c)
  }

  /** Where the search begins: at the cluster to be stretched, or at the last one that was taken, if that is known. */
  ghost function SearchStart(clst: nat, last: nat, n: nat): nat {
    if clst != 0 then clst else if last == 0 || last >= n then 1 else last
  }

  /** The table after cluster c has been taken for a new chain, or appended to cluster clst. */
  function Taken(f: Fat, clst: nat, c: nat, end: nat): (r: Fat)
    requires c < |f| && clst < |f|
    ensures |r| == |f|
  {
    if clst == 0 then f[c := end] else Linked(f, clst, c, end)
  }

  /** What a search for a free cluster to follow clst, or to start a chain, does to the table f. */
  ghost predicate TookCluster(f: Fat, r: Fat, clst: nat, ncl: nat, end: nat) {
    && |r| == |f|
    && (ncl == 0 ==> r == f && NoneIsFree(f))
    && (ncl == 1 ==> r == f && HasOne(f))
    && (ncl == DISK_ERROR ==> forall c :: 0 <= c < |f| && f[c] != 0 && c != clst ==> r[c] == f[c])
    && (1 < ncl != DISK_ERROR ==>
          InRange(f, ncl) && f[ncl] == 0 && clst < |f| && r == Taken(f, clst, ncl, end))
  }

  /** create_chain on the table f: 0 for no free cluster, 1 for an internal error, 0xFFFFFFFF for a
      disk error, else the cluster that now follows clst. */
  ghost predicate Created(f: Fat, r: Fat, clst: nat, ncl: nat, end: nat) {
    if clst == 0 then TookCluster(f, r, 0, ncl, end)
    else if !InRange(f, clst) then ncl == 1 && r == f
    else if f[clst] < 2 then ncl == 1 && r == f
    else if f[clst] < |f| then ncl == f[clst] && r == f
    else TookCluster(f, r, clst, ncl, end)
  }

  /** create_chain: finds a free cluster after the hint, wrapping around, and links it. When the link of the
      cluster to stretch cannot be read the code goes on as if that cluster were a last one. */
  method CreateChain(fs: Volume, clst: nat) returns (ncl: nat, ghost strayed: bool)
    requires fs.Valid()
    modifies fs`disk, fs`faults, fs`winsect, fs`wflag, fs`errors, fs`mirrorLost
    modifies fs`image, fs`fat, fs.win
    modifies fs`freeClust, fs`lastClust, fs`fsiFlag
    ensures fs.Valid() && fs.Looked()
    ensures !strayed ==> Created(old(fs.fat), fs.fat, clst, ncl, EndValue(fs.g))
    ensures strayed ==> InRange(old(fs.fat), clst) && TookCluster(old(fs.fat), fs.fat, clst, ncl, EndValue(fs.g))
    ensures strayed ==> fs.errors > old(fs.errors)
    ensures ncl == DISK_ERROR ==> fs.errors > old(fs.errors)
    ensures ncl == 0 || 1 < ncl != DISK_ERROR ==> InFat(fs.g, fs.winsect)
    ensures fs.freeClust == if fs.fat == old(fs.fat) || ncl == DISK_ERROR then old(fs.freeClust)
                            else CountTaken(old(fs.freeClust))
    ensures ncl != DISK_ERROR && CountIsRight(old(fs.freeClust), old(fs.fat)) && (!strayed || old(fs.fat)[clst] != 0) ==>
              CountIsRight(fs.freeClust, fs.fat)
    ensures 1 < ncl != DISK_ERROR && fs.fat != old(fs.fat) ==>
              NextFree(old(fs.fat), SearchStart(clst, old(fs.lastClust), fs.g.nFatent), ncl) && fs.lastClust == ncl
    ensures fs.fat == old(fs.fat) || ncl == DISK_ERROR ==> fs.lastClust == old(fs.lastClust)
  {
    hide Volume.Shape, Volume.Decoded, Volume.WindowCoherent, Volume.DiskCoherent, Volume.MirrorCoherent, DataFits, Truncate;
    fs.Bounds();
    var scl: nat;
    strayed := false;
    if clst == 0 {
      scl := fs.lastClust;
      if scl == 0 || scl >= fs.g.nFatent { scl := 1; }
    } else {
      var cs := fs.GetFat(clst);
      if cs < 2 { return 1, false; }
      if cs < fs.g.nFatent { return cs, false; }
      strayed := cs == DISK_ERROR;
      scl := clst;
    }
    ghost var f0 := fs.fat;
    ncl := TakeCluster(fs, scl, clst);
    if 1 < ncl && ncl != DISK_ERROR && (clst == 0 || f0[clst] != 0) {
      TakenCount(f0, clst, ncl, EndValue(fs.g), old(fs.freeClust));
    }
  }

  /** Taking a cluster lowers the number of free ones by one. */
  lemma TakenCount(f: Fat, clst: nat, c: nat, end: nat, free: Dword)
    requires InRange(f, c) && f[c] == 0 && 0 < end && |f| < 0x1000_0000
    requires clst == 0 || (InRange(f, clst) && f[clst] != 0)
    ensures clst < |f| && (CountIsRight(free, f) ==> CountIsRight(CountTaken(free), Taken(f, clst, c, end)))
    ensures Taken(f, clst, c, end) != f
  {
    FreeFromUpdate(f, 2, c, end);
    if clst != 0 {
      FreeFromUpdate(f[c := end], 2, clst, c);
    }
  }

  /** The rest of create_chain, once the cluster to stretch is known to be a last one. */
  method TakeCluster(fs: Volume, scl: nat, clst: nat) returns (ncl: nat)
    requires fs.Valid() && 1 <= scl < fs.g.nFatent
    requires clst == 0 || InRange(fs.fat, clst)
    modifies fs`disk, fs`faults, fs`winsect, fs`wflag, fs`errors, fs`mirrorLost
    modifies fs`image, fs`fat, fs.win
    modifies fs`freeClust, fs`lastClust, fs`fsiFlag
    ensures fs.Valid() && fs.Looked()
    ensures TookCluster(old(fs.fat), fs.fat, clst, ncl, EndValue(fs.g))
    ensures ncl == DISK_ERROR ==> fs.errors > old(fs.errors)
    ensures ncl == 0 || 1 < ncl != DISK_ERROR ==> InFat(fs.g, fs.winsect)
    ensures fs.freeClust == if 1 < ncl != DISK_ERROR then CountTaken(old(fs.freeClust)) else old(fs.freeClust)
    ensures 1 < ncl != DISK_ERROR ==> fs.lastClust == ncl
    ensures 1 < ncl != DISK_ERROR ==> NextFree(old(fs.fat), scl, ncl)
    ensures ncl <= 1 || ncl == DISK_ERROR ==> fs.lastClust == old(fs.lastClust)
  {
    hide Volume.Shape, Volume.Decoded, Volume.WindowCoherent, Volume.DiskCoherent, Volume.MirrorCoherent, DataFits, Truncate;
    fs.Bounds();
    ncl := FindFree(fs, scl);
    if ncl < 2 || ncl == DISK_ERROR { return; }
    var res := LinkCluster(fs, clst, ncl);
    if res == Ok {
      fs.lastClust := ncl;
      if fs.freeClust != 0xFFFF_FFFF {
        fs.freeClust := if fs.freeClust == 0 then 0xFFFF_FFFF else fs.freeClust - 1;
        fs.fsiFlag := true;
      }
    } else {
      ncl := DISK_ERROR;
    }
  }

  /** The end of create_chain: marks the new cluster as last link, then links it to its predecessor. */
  method LinkCluster(fs: Volume, clst: nat, ncl: nat) returns (res: FResult)
    requires fs.Valid() && InFat(fs.g, fs.winsect)
    requires InRange(fs.fat, ncl) && (clst == 0 || InRange(fs.fat, clst))
    modifies fs`disk, fs`faults, fs`winsect, fs`wflag, fs`errors, fs`mirrorLost
    modifies fs`image, fs`fat, fs.win
    ensures fs.Valid() && fs.Looked()
    ensures res == Ok || (res == DiskErr && fs.errors > old(fs.errors))
    ensures res == Ok ==> fs.fat == Taken(old(fs.fat), clst, ncl, EndValue(fs.g)) && InFat(fs.g, fs.winsect)
    ensures forall c :: 0 <= c < |old(fs.fat)| && c != ncl && c != clst ==> fs.fat[c] == old(fs.fat)[c]
  {
    hide Volume.Shape, Volume.Decoded, Volume.WindowCoherent, Volume.DiskCoherent, Volume.MirrorCoherent, DataFits, Truncate;
    fs.Bounds();
    res := fs.PutFat(ncl, END_MARK);
    if res == Ok && clst != 0 {
      res := fs.PutFat(clst, ncl);
    }
  }

  /** The search loop of create_chain: scans every cluster once, from the one after scl around to scl, for the
      first that is free. */
  method FindFree(fs: Volume, scl: nat) returns (ncl: nat)
    requires fs.Valid() && 1 <= scl < fs.g.nFatent
    modifies fs`disk, fs`faults, fs`winsect, fs`wflag, fs`errors, fs`mirrorLost, fs.win
    ensures fs.Valid() && fs.Looked()
    ensures ncl == 0 ==> NoneIsFree(fs.fat) && InFat(fs.g, fs.winsect)
    ensures ncl == 1 ==> HasOne(fs.fat)
    ensures ncl == DISK_ERROR ==> fs.errors > old(fs.errors)
    ensures ncl > 1 && ncl != DISK_ERROR ==> InRange(fs.fat, ncl) && fs.fat[ncl] == 0 && InFat(fs.g, fs.winsect)
    ensures ncl > 1 && ncl != DISK_ERROR ==>
              if ncl > scl then AllTaken(fs.fat, scl + 1, ncl) else AllTaken(fs.fat, scl + 1, fs.g.nFatent) && AllTaken(fs.fat, 2, ncl)
  {
    hide Volume.Shape, Volume.Decoded, Volume.WindowCoherent, Volume.DiskCoherent, Volume.MirrorCoherent, DataFits, Truncate;
    fs.Bounds();
    ncl := scl;
    ghost var wrapped := false;
    ghost var f := fs.fat;
    while true
      invariant fs.Valid() && fs.Looked() && fs.fat == f
      invariant !wrapped ==> scl <= ncl < fs.g.nFatent
      invariant wrapped ==> 2 <= ncl < scl
      invariant AllTaken(f, scl + 1, if wrapped then fs.g.nFatent else ncl + 1)
      invariant wrapped ==> AllTaken(f, 2, ncl + 1)
      invariant wrapped || ncl != scl ==> InFat(fs.g, fs.winsect)
      decreases if wrapped then 0 else 1, if wrapped then scl - ncl else fs.g.nFatent - ncl
    {
      ncl := ncl + 1;
      if ncl >= fs.g.nFatent {
        ncl := 2;
        wrapped := true;
        if ncl > scl {
          return 0;
        }
      }
      var cs := fs.GetFat(ncl);
      if cs == 0 { return; }
      if cs == DISK_ERROR || cs == 1 { return cs; }
      if ncl == scl { return 0; }
    }
  }

  /** The result that a returned cluster number stands for. */
  function Outcome(clst: nat): FResult {
    if clst == 1 then IntErr else if clst == DISK_ERROR then DiskErr else Ok
  }

  /** A failure has its cause: for a disk error a disk operation has failed, for an internal error the table f0 had
      an entry 1. Without a failure no such entry has come about. */
  ghost predicate Explained(res: FResult, failed: bool, f0: Fat, f: Fat) {
    (res == DiskErr && failed) || (res == IntErr && HasOne(f0)) || (res == Ok && (HasOne(f) ==> HasOne(f0)))
  }

  /** create_chain fails for a cause, on the cluster of a chain or for a new one. */
  lemma CreateExplained(f: Fat, r: Fat, clst: nat, ncl: nat, end: nat, strayed: bool, failed: bool)
    requires clst == 0 || (InRange(f, clst) && f[clst] >= 2)
    requires if strayed then TookCluster(f, r, clst, ncl, end) else Created(f, r, clst, ncl, end)
    requires 3 <= |f| <= end && (ncl == DISK_ERROR ==> failed)
    ensures Explained(Outcome(ncl), failed, f, r)
  {
    if 1 < ncl != DISK_ERROR && HasOne(r) {
      var c :| InRange(r, c) && r[c] == 1;
      assert InRange(f, c) && f[c] == 1;
    }
  }

  // ---------- freeing ----------

  /** What freeing by following links from cluster c does to the table f: each cluster met is zeroed
      before the next one is looked at, so the walk ends on every table, even a cyclic one. */
  function FreeWalk(f: Fat, c: nat): (r: (Fat, FResult))
    requires c >= 2
    ensures |r.0| == |f|
    decreases |f| - FreeFrom(f, 0)
  {
    if c >= |f| || f[c] == 0 then (f, Ok)
    else if f[c] == 1 then (f, IntErr)
    else
      FreeFromUpdate(f, 0, c, 0);
      FreeWalk(f[c := 0], f[c])
  }

  /** x is reached from c in k links of the table f. */
  ghost predicate Reaches(f: Fat, c: nat, x: nat, k: nat)
    decreases k
  {
    InRange(f, c) && if k == 0 then c == x else Reaches(f, f[c], x, k - 1)
  }

  ghost predicate Reached(f: Fat, c: nat, x: nat) {
    exists k: nat :: Reaches(f, c, x, k)
  }

  lemma {:induction false} ReachesNext(f: Fat, c: nat, x: nat, k: nat)
    requires Reaches(f, c, x, k) && x < |f| && InRange(f, f[x])
    ensures Reaches(f, c, f[x], k + 1)
    decreases k
  {
    if k == 0 {
      assert Reaches(f, f[x], f[x], 0);
    } else {
      ReachesNext(f, f[c], x, k - 1);
    }
  }

  lemma ReachedStart(f: Fat, c: nat)
    requires InRange(f, c)
    ensures Reached(f, c, c)
  {
    assert Reaches(f, c, c, 0);
  }

  lemma ReachedNext(f: Fat, c: nat, x: nat)
    requires Reached(f, c, x)
    ensures x < |f| && (InRange(f, f[x]) ==> Reached(f, c, f[x]))
  {
    var k: nat :| Reaches(f, c, x, k);
    ReachedInside(f, c, x, k);
    if InRange(f, f[x]) {
      ReachesNext(f, c, x, k);
    }
  }

  lemma {:induction false} ReachedInside(f: Fat, c: nat, x: nat, k: nat)
    requires Reaches(f, c, x, k)
    ensures x < |f|
    decreases k
  {
    if k > 0 {
      ReachedInside(f, f[c], x, k - 1);
    }
  }

  /** A free cluster stays free during the walk. */
  lemma {:induction false} WalkKeepsFree(f: Fat, c: nat, x: nat)
    requires c >= 2 && x < |f| && f[x] == 0
    ensures FreeWalk(f, c).0[x] == 0
    decreases |f| - FreeFrom(f, 0)
  {
    if c < |f| && f[c] > 1 {
      FreeFromUpdate(f, 0, c, 0);
      WalkKeepsFree(f[c := 0], f[c], x);
    }
  }

  /** The walk changes only clusters that are reachable from its start. */
  lemma {:induction false} WalkFreesOnlyReachable(f: Fat, c: nat, x: nat)
    requires c >= 2 && x < |f| && FreeWalk(f, c).0[x] != f[x]
    ensures FreeWalk(f, c).0[x] == 0
    ensures Reached(f, c, x)
    decreases |f| - FreeFrom(f, 0)
  {
    assert c < |f| && f[c] > 1;
    var f1 := f[c := 0];
    FreeFromUpdate(f, 0, c, 0);
    if x == c {
      assert Reaches(f, c, x, 0);
      WalkKeepsFree(f1, f[c], x);
    } else {
      WalkFreesOnlyReachable(f1, f[c], x);
      var k: nat :| Reaches(f1, f[c], x, k);
      ReachInMore(f, c, f[c], x, k);
      assert Reaches(f, c, x, k + 1);
    }
  }

  /** A path that survives the freeing of a cluster existed before. */
  lemma {:induction false} ReachInMore(f: Fat, c: nat, d: nat, x: nat, k: nat)
    requires InRange(f, c) && Reaches(f[c := 0], d, x, k)
    ensures Reaches(f, d, x, k)
    decreases k
  {
    if k > 0 && d != c {
      ReachInMore(f, c, f[d], x, k - 1);
    }
  }

  /** A path from d to x either avoids cluster c or has a shorter rest that starts at c. */
  lemma {:induction false} Detour(f: Fat, c: nat, d: nat, x: nat, k: nat) returns (k2: nat)
    requires InRange(f, c) && Reaches(f, d, x, k) && x != c
    ensures k2 <= k && (Reaches(f[c := 0], d, x, k2) || Reaches(f, c, x, k2))
    decreases k
  {
    if d == c || k == 0 {
      k2 := k;
    } else {
      var k1 := Detour(f, c, f[d], x, k - 1);
      if Reaches(f, c, x, k1) {
        k2 := k1;
      } else {
        k2 := k1 + 1;
      }
    }
  }

  /** A successful walk frees every cluster reachable from its start. */
  lemma {:induction false} WalkFreesReachable(f: Fat, c: nat, x: nat, k: nat)
    requires Reaches(f, c, x, k) && FreeWalk(f, c).1 == Ok
    ensures x < |f| && FreeWalk(f, c).0[x] == 0
    decreases |f| - FreeFrom(f, 0), k
  {
    if f[c] > 1 {
      FreeFromUpdate(f, 0, c, 0);
      if x == c {
        WalkKeepsFree(f[c := 0], f[c], x);
      } else {
        var k2 := Detour(f, c, f[c], x, k - 1);
        if Reaches(f, c, x, k2) {
          WalkFreesReachable(f, c, x, k2);
        } else {
          WalkFreesReachable(f[c := 0], f[c], x, k2);
        }
      }
    }
  }

  /** On a whole chain the walk frees exactly the chain. */
  lemma {:induction false} WalkFreesChain(f: Fat, ch: seq<nat>)
    requires IsChain(f, ch)
    ensures FreeWalk(f, ch[0]) == (Freed(f, ch), Ok)
    decreases |ch|
  {
    var c := ch[0];
    var f1 := f[c := 0];
    NotFree(f, ch);
    ChainIsAcyclic(f, ch);
    FreeFromUpdate(f, 0, c, 0);
    if |ch| == 1 {
      assert Freed(f, ch) == f1;
    } else {
      assert f[c] == ch[1] && InRange(f, ch[1]);
      ChainTail(f, ch, 1);
      forall i | 0 <= i < |ch| - 1
        ensures f1[ch[1..][i]] == f[ch[1..][i]]
      {
        assert ch[1..][i] == ch[i + 1] && ch[i + 1] != c;
      }
      ChainFrame(f, f1, ch[1..]);
      WalkFreesChain(f1, ch[1..]);
      assert ch == [c] + ch[1..];
      assert Freed(f1, ch[1..]) == Freed(f, ch);
    }
  }

  /** remove_chain: frees what the walk over the links frees. */
  method RemoveChain(fs: Volume, clst: nat) returns (res: FResult)
    requires fs.Valid()
    modifies fs`disk, fs`faults, fs`winsect, fs`wflag, fs`errors, fs`mirrorLost
    modifies fs`image, fs`fat, fs.win
    modifies fs`freeClust, fs`fsiFlag
    ensures fs.Valid() && fs.Looked()
    ensures !InRange(old(fs.fat), clst) ==> res == IntErr && fs.fat == old(fs.fat)
    ensures InRange(old(fs.fat), clst) && res != DiskErr ==> (fs.fat, res) == FreeWalk(old(fs.fat), clst)
    ensures forall x :: 0 <= x < |old(fs.fat)| && fs.fat[x] != old(fs.fat)[x] ==> Reached(old(fs.fat), clst, x)
    ensures res == DiskErr ==> fs.errors > old(fs.errors)
    ensures res == Ok ==> InFat(fs.g, fs.winsect)
    ensures res != DiskErr && CountIsRight(old(fs.freeClust), old(fs.fat)) ==> CountIsRight(fs.freeClust, fs.fat)
  {
    hide Volume.Shape, Volume.Decoded, Volume.WindowCoherent, Volume.DiskCoherent, Volume.MirrorCoherent, DataFits, Truncate, Reached;
    fs.Bounds();
    if clst < 2 || clst >= fs.g.nFatent {
      return IntErr;
    }
    res := Ok;
    var c := clst;
    ghost var f0, walk := fs.fat, FreeWalk(fs.fat, clst);
    ReachedStart(f0, clst);
    while c < fs.g.nFatent
      invariant fs.Valid() && fs.Looked() && c >= 2 && res == Ok
      invariant FreeWalk(fs.fat, c) == walk
      invariant c != clst ==> InFat(fs.g, fs.winsect)
      invariant |f0| == |fs.fat| && (c < |f0| ==> Reached(f0, clst, c))
      invariant forall x :: 0 <= x < |f0| && fs.fat[x] != f0[x] ==> fs.fat[x] == 0 && Reached(f0, clst, x)
      invariant CountIsRight(old(fs.freeClust), old(fs.fat)) ==> CountIsRight(fs.freeClust, fs.fat)
      decreases |fs.fat| - FreeFrom(fs.fat, 0)
    {
      var nxt := fs.GetFat(c);
      if nxt == 0 { break; }
      if nxt == 1 { res := IntErr; break; }
      if nxt == DISK_ERROR { res := DiskErr; break; }
      FreeFromUpdate(fs.fat, 0, c, 0);
      FreeFromUpdate(fs.fat, 2, c, 0);
      ReachedNext(f0, clst, c);
      res := fs.PutFat(c, 0);
      if res != Ok { break; }
      if fs.freeClust != 0xFFFF_FFFF {
        fs.freeClust := fs.freeClust + 1;
        fs.fsiFlag := true;
      }
      c := nxt;
    }
  }

  // ---------- runs ----------

  /** The table, the chains it holds, and FATFS.free_clust. */
  datatype Allocated = Allocated(fat: Fat, chains: set<seq<nat>>, free: Dword)

  ghost predicate AllocationInv(s: Allocated) {
    && 3 <= |s.fat| < 0x1000_0000
    && Allocation(s.fat, s.chains)
    && CountIsRight(s.free, s.fat)
  }

  /** A call create_chain(clst) that ends without a disk error, where clst is 0 or the last cluster of
      the chain ch, and which chains there are afterwards. */
  ghost predicate CreateStep(s: Allocated, t: Allocated, ch: seq<nat>, ncl: nat, end: nat) {
    && ncl != DISK_ERROR && (ch == [] || ch in s.chains)
    && Created(s.fat, t.fat, if ch == [] then 0 else ch[|ch| - 1], ncl, end)
    && (if t.fat == s.fat then t.free == s.free && t.chains == s.chains
        else t.free == CountTaken(s.free) && t.chains == Replaced(s.chains, ch, ch + [ncl]))
  }

  /** A call remove_chain(ch[0]) that ends without a disk error. */
  ghost predicate RemoveStep(s: Allocated, t: Allocated, ch: seq<nat>, res: FResult) {
    && ch in s.chains && ch != [] && ch[0] >= 2
    && (t.fat, res) == FreeWalk(s.fat, ch[0])
    && (CountIsRight(s.free, s.fat) ==> CountIsRight(t.free, t.fat))
    && t.chains == s.chains - {ch}
  }

  /** On a table without internal errors, stretching a chain at its end (or starting a new one) returns
      0 exactly when no cluster is free, and otherwise takes a free cluster. */
  lemma CreateOutcome(f: Fat, r: Fat, clst: nat, ncl: nat, end: nat)
    requires 3 <= |f| < DISK_ERROR && (forall c :: InRange(f, c) ==> f[c] != 1)
    requires clst == 0 || (InRange(f, clst) && f[clst] >= |f|)
    requires Created(f, r, clst, ncl, end) && ncl != DISK_ERROR && |f| <= end
    ensures ncl == 0 <==> NoneIsFree(f)
    ensures ncl == 0 ==> r == f
    ensures ncl != 0 ==> InRange(f, ncl) && f[ncl] == 0 && clst < |f| && r == Taken(f, clst, ncl, end) && r != f
  {
    if ncl != 0 {
      assert TookCluster(f, r, clst, ncl, end) && clst != ncl;
      assert r[ncl] == end;
    }
  }

  /** What becomes of a chain when the link of its cluster i could not be read: it goes on with the new cluster
      behind cluster i, and has been extended, as it should, exactly when cluster i was its last. */
  lemma StrayCutsChain(f: Fat, r: Fat, ch: seq<nat>, i: nat, ncl: nat, end: nat)
    requires IsChain(f, ch) && i < |ch| && TookCluster(f, r, ch[i], ncl, end) && 1 < ncl != DISK_ERROR && |f| <= end
    ensures IsChain(r, ch[..i + 1] + [ncl])
    ensures IsChain(r, ch + [ncl]) <==> i == |ch| - 1
    ensures Created(f, r, ch[i], ncl, end) <==> i == |ch| - 1
  {
    ChainIsAcyclic(f, ch);
    NotFree(f, ch);
    var t := ch[..i + 1] + [ncl];
    forall k | 0 <= k < |t|
      ensures InRange(r, t[k]) && (k + 1 < |t| ==> r[t[k]] == t[k + 1]) && (k + 1 == |t| ==> r[t[k]] >= |r|)
    {
    }
    if i == |ch| - 1 {
      assert ch[..i + 1] == ch;
    } else {
      var u := ch + [ncl];
      assert f[ch[i]] == ch[i + 1] != ncl;
      assert u[i] == ch[i] && u[i + 1] == ch[i + 1];
      assert r[u[i]] == ncl;
      assert r != f;
    }
  }

  /** A table on which that cuts a chain: the link of cluster 2, which leads to cluster 3, could not be read. */
  lemma StrayCanCut()
    ensures var f: Fat := [0xFF8, 0xFFF, 3, 0xFFF, 0];
            var r: Fat := [0xFF8, 0xFFF, 4, 0xFFF, 0xFFF];
            && IsChain(f, [2, 3]) && TookCluster(f, r, 2, 4, 0xFFF)
            && IsChain(r, [2, 4]) && !IsChain(r, [2, 3]) && !IsChain(r, [2, 3, 4])
  {
    var f: Fat := [0xFF8, 0xFFF, 3, 0xFFF, 0];
    assert f[4 := 0xFFF][2 := 4] == [0xFF8, 0xFFF, 4, 0xFFF, 0xFFF];
    var r: Fat := [0xFF8, 0xFFF, 4, 0xFFF, 0xFFF];
    assert InRange(f, 4) && r == Taken(f, 2, 4, 0xFFF);
    assert IsChain(f, [2, 3]) && IsChain(r, [2, 4]);
    var ch: seq<nat>, t: seq<nat> := [2, 3], [2, 3, 4];
    assert r[ch[0]] != ch[1] && r[t[0]] != t[1];
  }

  /** create_chain keeps the allocation a disjoint union of terminated chains, the free count right,
      fails only when no cluster is free, and never meets an internal error. */
  lemma CreateKeepsInv(s: Allocated, t: Allocated, ch: seq<nat>, ncl: nat, end: nat)
    requires AllocationInv(s) && CreateStep(s, t, ch, ncl, end) && |s.fat| <= end
    ensures AllocationInv(t) && |t.fat| == |s.fat|
    ensures ncl == 0 <==> NoneIsFree(s.fat)
    ensures ncl == 0 ==> t == s
    ensures ncl != 0 ==> t.chains == Replaced(s.chains, ch, ch + [ncl]) && InRange(s.fat, ncl) && s.fat[ncl] == 0
  {
    hide Allocation, Created, TookCluster, Taken, NoneIsFree, Replaced, FreeCount;
    var clst := if ch == [] then 0 else ch[|ch| - 1];
    NoLinkToOne(s.fat, s.chains);
    MemberIsChain(s.fat, s.chains);
    CreateOutcome(s.fat, t.fat, clst, ncl, end);
    if ncl != 0 {
      TakenKeepsAllocation(s.fat, s.chains, ch, ncl, end);
      SomeIsFree(s.fat, ncl);
    }
  }

  lemma MemberIsChain(f: Fat, chains: set<seq<nat>>)
    requires Allocation(f, chains)
    ensures forall ch :: ch in chains ==> |ch| > 0 && InRange(f, ch[|ch| - 1]) && f[ch[|ch| - 1]] >= |f|
  {
    forall ch | ch in chains
      ensures |ch| > 0 && InRange(f, ch[|ch| - 1]) && f[ch[|ch| - 1]] >= |f|
    {
      assert IsChain(f, ch);
    }
  }

  lemma SomeIsFree(f: Fat, c: nat)
    requires InRange(f, c) && f[c] == 0
    ensures 0 < FreeCount(f) <= |f| - 2
  {
    NoneFree(f, 2);
  }

  lemma TakenKeepsAllocation(f: Fat, chains: set<seq<nat>>, ch: seq<nat>, ncl: nat, end: nat)
    requires Allocation(f, chains) && (ch == [] || ch in chains)
    requires InRange(f, ncl) && f[ncl] == 0 && |f| <= end
    ensures var clst := if ch == [] then 0 else ch[|ch| - 1];
            && clst < |f|
            && Allocation(Taken(f, clst, ncl, end), Replaced(chains, ch, ch + [ncl]))
            && FreeCount(Taken(f, clst, ncl, end)) == FreeCount(f) - 1
  {
    hide AllChains, AllDisjoint, AllCovered, IsChain;
    MemberIsChain(f, chains);
    if ch == [] {
      NewChainKeepsAllocation(f, chains, ncl, end);
      NoEmptyChain(f, chains);
      ReplacedNone(chains, [ncl]);
      assert ch + [ncl] == [ncl];
    } else {
      GrowKeepsAllocation(f, chains, ch, ncl, end);
    }
  }

  /** No entry of a table that consists of chains and free clusters is 1. */
  lemma NoLinkToOne(f: Fat, chains: set<seq<nat>>)
    requires Allocation(f, chains)
    ensures forall c :: InRange(f, c) ==> f[c] != 1
  {
    forall c: nat | InRange(f, c) && f[c] != 0
      ensures f[c] != 1
    {
      assert OnSome(chains, c);
      var ch :| ch in chains && c in ch;
      var i :| 0 <= i < |ch| && ch[i] == c;
      assert i < |ch| - 1 ==> f[ch[i]] == ch[i + 1] && InRange(f, ch[i + 1]);
    }
  }

  /** remove_chain on a whole chain frees exactly that chain. */
  lemma RemoveKeepsInv(s: Allocated, t: Allocated, ch: seq<nat>, res: FResult)
    requires AllocationInv(s) && RemoveStep(s, t, ch, res)
    ensures AllocationInv(t) && res == Ok && t.fat == Freed(s.fat, ch)
  {
    hide AllDisjoint, AllCovered, Distinct, FreeCount;
    WalkFreesChain(s.fat, ch);
    FreeKeepsAllocation(s.fat, s.chains, ch);
  }

  ghost predicate AllocatorStep(s: Allocated, t: Allocated, end: nat) {
    || (exists ch, ncl :: CreateStep(s, t, ch, ncl, end))
    || (exists ch, res :: RemoveStep(s, t, ch, res))
  }

  /** Over any run of create_chain and remove_chain the allocated clusters stay a disjoint union of
      acyclic terminated chains, and a known free count stays the number of free clusters. */
  lemma {:induction false} RunKeepsInv(run: seq<Allocated>, end: nat)
    requires |run| > 0 && AllocationInv(run[0]) && |run[0].fat| <= end
    requires forall i {:trigger run[i]} :: 0 < i < |run| ==> AllocatorStep(run[i - 1], run[i], end)
    ensures AllocationInv(run[|run| - 1]) && |run[|run| - 1].fat| == |run[0].fat|
    ensures forall ch :: ch in run[|run| - 1].chains ==> IsChain(run[|run| - 1].fat, ch) && Distinct(ch)
    decreases |run|
  {
    hide AllocationInv, AllocatorStep;
    if |run| > 1 {
      var before := run[..|run| - 1];
      RunKeepsInv(before, end);
      var s := before[|before| - 1];
      assert s == run[|run| - 2] && AllocatorStep(s, run[|run| - 1], end);
      StepKeepsInv(s, run[|run| - 1], end);
    }
    InvChainsAcyclic(run[|run| - 1]);
  }

  lemma StepKeepsInv(s: Allocated, t: Allocated, end: nat)
    requires AllocationInv(s) && AllocatorStep(s, t, end) && |s.fat| <= end
    ensures AllocationInv(t) && |t.fat| == |s.fat|
  {
    hide AllocationInv, CreateStep, RemoveStep;
    if ch, ncl :| CreateStep(s, t, ch, ncl, end) {
      CreateKeepsInv(s, t, ch, ncl, end);
    } else {
      var ch, res :| RemoveStep(s, t, ch, res);
      RemoveKeepsInv(s, t, ch, res);
    }
  }

  lemma InvChainsAcyclic(t: Allocated)
    requires AllocationInv(t)
    ensures forall ch :: ch in t.chains ==> IsChain(t.fat, ch) && Distinct(ch)
  {
    forall ch | ch in t.chains
      ensures IsChain(t.fat, ch) && Distinct(ch)
    {
      ChainIsAcyclic(t.fat, ch);
    }
  }
}
