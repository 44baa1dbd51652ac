// Cluster allocation on the volume (dfs/ff.c: remove_chain, create_chain, f_getfree).
module FatAlloc {
  import opened Words
  import opened FatVolume
  import opened FatChain

  /** freeClust is the unknown marker or the number of free clusters. */
  ghost predicate CountTruthful(t: Fat, freeClust: nat) {
    freeClust == UNKNOWN_COUNT || freeClust == FreeCount(t)
  }

  /** The end mark as put_fat stores it lies outside the table. */
  lemma EndMarkOutside(g: Geometry)
    requires g.Valid()
    ensures END_MARK % g.EntrySpan() >= g.nFatent
    ensures forall c | 0 <= c < g.nFatent :: c % g.EntrySpan() == c
    ensures g.EntrySpan() <= 0x1000_0000
    ensures 3 <= g.nFatent < 0x1000_0000
  {
  }

  /** Where create_chain starts to look for a new chain's first cluster. */
  function StartHint(n: nat, lastClust: nat): (scl: nat)
    ensures n >= 3 ==> 1 <= scl < n
  {
    if lastClust == 0 || lastClust >= n then 1 else lastClust
  }

  /** The circular search of create_chain. */
  method Scan(fs: Volume, scl: nat) returns (r: nat)
    requires fs.Valid() && 1 <= scl < fs.g.nFatent
    modifies fs`disk, fs`winsect, fs`wflag, fs.win
    ensures fs.Valid()
    ensures ScanAnswer(fs.Fat(), scl, r)
    ensures fs.g.fatbase <= fs.winsect < fs.g.fatbase + fs.g.fsize
  {
    hide Volume.Valid, Volume.Fat, Geometry.Valid, Geometry.EntrySpan, IsDisk, Entry, Table;
    fs.ImageIsDisk();
    EndMarkOutside(fs.g);
    ghost var t := fs.Fat();
    var n := fs.g.nFatent;
    var ncl := scl;
    ghost var rank := -1;
    while true
      invariant fs.Valid() && t == fs.Fat()
      invariant 1 <= ncl < n && rank < n - 2
      invariant rank >= 0 ==> 2 <= ncl && ncl != scl
      invariant rank == if ncl > scl then ncl - scl - 1 else if rank < 0 then -1 else ncl - scl - 1 + (n - 2)
      invariant rank < 0 ==> ncl == scl
      invariant rank >= 0 ==> fs.g.fatbase <= fs.winsect < fs.g.fatbase + fs.g.fsize
      invariant forall k | InRange(t, k) && ScanRank(n, scl, k) <= rank :: t[k] > 1
      decreases n - rank
    {
      ncl := ncl + 1;
      if ncl >= n {
        ncl := 2;
        if ncl > scl { return 0; }
      }
      rank := rank + 1;
      var cs := fs.GetFat(ncl);
      if cs == 0 { return ncl; }
      if cs == DISK_ERROR || cs == 1 { return cs; }
      if ncl == scl { return 0; }
    }
  }

  /** What create_chain answers and does to the table, for any table and any hint. */
  ghost predicate Created(t: Fat, hint: nat, clst: nat, r: nat, u: Fat, mark: nat) {
    if clst != 0 && (!InRange(t, clst) || t[clst] < 2) then
      r == 1 && u == t
    else if clst != 0 && t[clst] < |t| then
      r == t[clst] && u == t
    else
      && ScanAnswer(t, if clst == 0 then StartHint(|t|, hint) else clst, r)
      && if r < 2 then u == t
         else if clst == 0 then InRange(t, r) && u == t[r := mark]
         else InRange(t, r) && u == t[r := mark][clst := r]
  }

  /**
   * Which cluster create_chain takes: the first free one after the last cluster of the chain, or, for a new chain,
   * after the hint (after cluster 1 without a usable hint), wrapping around to cluster 2.
   */
  lemma CreatedPlace(t: Fat, hint: nat, clst: nat, r: nat, u: Fat, mark: nat)
    requires |t| >= 3 && Created(t, hint, clst, r, u, mark)
    requires clst == 0 || (InRange(t, clst) && t[clst] >= |t|)
    ensures var from := if clst != 0 then clst else if 2 <= hint < |t| then hint else 1;
            && (r >= 2 ==>
                  && InRange(t, r) && t[r] == 0
                  && if r > from then forall k | from < k < r :: t[k] > 1
                     else (forall k | from < k < |t| :: t[k] > 1) && forall k | 2 <= k < r :: t[k] > 1)
            && (from + 1 < |t| && t[from + 1] == 0 ==> r == from + 1)
  {
    var from := if clst != 0 then clst else if 2 <= hint < |t| then hint else 1;
    ScanPlace(t, from, r);
  }

  lemma ScanPlace(t: Fat, from: nat, r: nat)
    requires 1 <= from < |t| && ScanAnswer(t, from, r)
    ensures r >= 2 ==> InRange(t, r) && t[r] == 0
    ensures r > from ==> forall k | from < k < r :: t[k] > 1
    ensures 2 <= r <= from ==> (forall k | from < k < |t| :: t[k] > 1) && forall k | 2 <= k < r :: t[k] > 1
    ensures from + 1 < |t| && t[from + 1] == 0 ==> r == from + 1
  {
    if from + 1 < |t| {
      assert InRange(t, from + 1);
      assert ScanRank(|t|, from, from + 1) == 0;
    }
  }

  /** A new cluster was taken. */
  ghost predicate TookCluster(t: Fat, clst: nat, r: nat) {
    r >= 2 && InRange(t, r) && t[r] == 0 && (clst != 0 ==> InRange(t, clst) && t[clst] >= |t|)
  }

  function ResultCode(res: Status, ncl: nat): nat {
    if res == Ok then ncl else 1
  }

  /** The two entries create_chain writes; steps lists the table after each write. */
  method TakeCluster(fs: Volume, clst: nat, ncl: nat) returns (res: Status, ghost steps: seq<Fat>)
    requires fs.Valid() && TookCluster(fs.Fat(), clst, ncl)
    modifies fs`disk, fs`winsect, fs`wflag, fs`image, fs.win
    ensures fs.Valid() && res == Ok
    ensures var mark := END_MARK % fs.g.EntrySpan();
            && fs.Fat() == old(Grown(fs.Fat(), clst, ncl, mark))
            && steps == [old(fs.Fat())[ncl := mark]] + (if clst == 0 then [] else [fs.Fat()])
    ensures SameOutsideFat(fs.g, old(fs.image), fs.image)
    ensures old(MirrorsAgree(fs.g, fs.image)) ==> MirrorsAgree(fs.g, fs.image)
    ensures fs.g.fatbase <= fs.winsect < fs.g.fatbase + fs.g.fsize
  {
    hide Volume.Valid, Volume.Fat, Geometry.Valid, Geometry.EntrySpan, IsDisk, Entry, Table, MirrorsAgree;
    fs.ImageIsDisk();
    EndMarkOutside(fs.g);
    res := fs.PutFat(ncl, END_MARK);
    steps := [fs.Fat()];
    if res == Ok && clst != 0 {
      fs.ImageIsDisk();
      res := fs.PutFat(clst, ncl);
      steps := steps + [fs.Fat()];
    }
  }

  /** The first half of create_chain: follow an existing link or look for a free cluster. */
  method SelectCluster(fs: Volume, clst: nat) returns (r: nat, isNew: bool)
    requires fs.Valid()
    modifies fs`disk, fs`winsect, fs`wflag, fs.win
    ensures fs.Valid()
    ensures isNew ==> TookCluster(fs.Fat(), clst, r)
    ensures var t, mark := fs.Fat(), END_MARK % fs.g.EntrySpan();
            Created(t, fs.lastClust, clst, r, if isNew then Grown(t, clst, r, mark) else t, mark)
    ensures fs.g.fatbase <= fs.winsect < fs.g.fatbase + fs.g.fsize || (r < 2 && fs.winsect == old(fs.winsect))
  {
    hide Volume.Valid, Volume.Fat, Geometry.Valid, Geometry.EntrySpan, IsDisk, Entry, Table, ScanAnswer;
    fs.ImageIsDisk();
    EndMarkOutside(fs.g);
    isNew := false;
    var scl;
    if clst == 0 {
      scl := fs.lastClust;
      if scl == 0 || scl >= fs.g.nFatent { scl := 1; }
    } else {
      var cs := fs.GetFat(clst);
      if cs < 2 { return 1, false; }
      if cs < fs.g.nFatent { return cs, false; }
      scl := clst;
    }
    r := Scan(fs, scl);
    ScanRange(fs.Fat(), scl, r);
    isNew := r >= 2;
  }

  method CreateChain(fs: Volume, clst: nat) returns (r: nat, ghost steps: seq<Fat>)
    requires fs.Valid()
    modifies fs`disk, fs`winsect, fs`wflag, fs`image, fs`lastClust, fs`freeClust, fs`fsiFlag, fs.win
    ensures fs.Valid()
    ensures Created(old(fs.Fat()), old(fs.lastClust), clst, r, fs.Fat(), END_MARK % fs.g.EntrySpan())
    ensures fs.lastClust == if fs.Fat() == old(fs.Fat()) then old(fs.lastClust) else r
    ensures SameOutsideFat(fs.g, old(fs.image), fs.image)
    ensures old(MirrorsAgree(fs.g, fs.image)) ==> MirrorsAgree(fs.g, fs.image)
    ensures old(CountTruthful(fs.Fat(), fs.freeClust)) ==> CountTruthful(fs.Fat(), fs.freeClust)
    ensures fs.g.fatbase <= fs.winsect < fs.g.fatbase + fs.g.fsize || (r < 2 && fs.winsect == old(fs.winsect))
    ensures old(WellFormed(fs.Fat())) ==> WellFormed(fs.Fat()) && forall i | 0 <= i < |steps| :: WellFormed(steps[i])
    ensures if fs.Fat() == old(fs.Fat()) then steps == [] else |steps| > 0 && steps[|steps| - 1] == fs.Fat()
    ensures var counted := fs.Fat() != old(fs.Fat()) && old(fs.freeClust) != 0xFFFF_FFFF;
            && fs.freeClust == (if counted then Sub32(old(fs.freeClust), 1) else old(fs.freeClust))
            && fs.fsiFlag == (old(fs.fsiFlag) || counted)
  {
    hide *;
    fs.ImageIsDisk();
    EndMarkOutside(fs.g);
    steps := [];
    ghost var t, mark := fs.Fat(), END_MARK % fs.g.EntrySpan();
    var isNew;
    r, isNew := SelectCluster(fs, clst);
    SameOutsideFatRefl(fs.g, fs.image);
    if isNew {
      if CountTruthful(t, fs.freeClust) { CreateCounts(t, clst, r, mark, fs.freeClust); }
      if WellFormed(t) { CreateGraph(t, clst, r, mark); }
      GrownDiffers(t, clst, r, mark);
      UnknownIs();
      var res;
      res, steps := TakeCluster(fs, clst, r);
      if res == Ok {
        fs.lastClust := r;
        if fs.freeClust != UNKNOWN_COUNT {
          fs.freeClust := Sub32(fs.freeClust, 1);
          fs.fsiFlag := true;
        }
      }
      r := ResultCode(res, r);
    }
  }

  lemma UnknownIs()
    ensures UNKNOWN_COUNT == 0xFFFF_FFFF
  {
  }

  lemma GrownDiffers(t: Fat, clst: nat, r: nat, mark: nat)
    requires TookCluster(t, clst, r) && mark >= |t|
    ensures Grown(t, clst, r, mark) != t
    ensures clst == 0 ==> Grown(t, clst, r, mark) == t[r := mark]
    ensures ResultCode(Ok, r) == r && |t| > r >= 2
  {
    assert Grown(t, clst, r, mark)[r] == mark;
  }

  /** The table create_chain leaves when it takes cluster r. */
  ghost function Grown(t: Fat, clst: nat, r: nat, mark: nat): (u: Fat)
    requires TookCluster(t, clst, r)
    ensures |u| == |t|
  {
    if clst == 0 then t[r := mark] else t[r := mark][clst := r]
  }

  lemma CreateCounts(t: Fat, clst: nat, r: nat, mark: nat, count: dword)
    requires TookCluster(t, clst, r) && mark >= |t|
    requires CountTruthful(t, count)
    ensures count != UNKNOWN_COUNT ==> CountTruthful(Grown(t, clst, r, mark), Sub32(count, 1))
    ensures count == UNKNOWN_COUNT ==> CountTruthful(Grown(t, clst, r, mark), count)
  {
    FreeCountUpdate(t, r, mark);
    FreeUpToBound(t, |t|);
    if clst != 0 {
      FreeCountUpdate(t[r := mark], clst, r);
    }
  }

  /** The graph stays well formed after each of the two entries create_chain writes. */
  lemma CreateGraph(t: Fat, clst: nat, r: nat, mark: nat)
    requires TookCluster(t, clst, r) && mark >= |t| && WellFormed(t)
    ensures WellFormed(t[r := mark]) && WellFormed(Grown(t, clst, r, mark))
  {
    MarkFree(t, r, mark);
    if clst != 0 {
      LinkEnd(t[r := mark], clst, r);
    }
  }

  /** Every chain is kept, and the chain that ended at clst has grown by exactly the new cluster. */
  lemma CreateChains(t: Fat, clst: nat, r: nat, mark: nat, ch: seq<nat>)
    requires TookCluster(t, clst, r) && mark >= |t| && IsChain(t, ch)
    ensures r !in ch
    ensures IsChain(Grown(t, clst, r, mark), if clst != 0 && clst in ch then ch + [r] else ch)
    ensures clst == 0 ==> IsChain(Grown(t, clst, r, mark), [r])
  {
    hide IsChain;
    MarkFreeChain(t, r, mark, ch);
    OneCluster(t[r := mark], r);
    if clst != 0 {
      LinkEndChain(t[r := mark], clst, r, ch);
    }
  }

  /** One round of remove_chain: clear the entry and count the cluster. */
  method FreeCluster(fs: Volume, c: nat) returns (res: Status)
    requires fs.Valid() && 2 <= c < fs.g.nFatent && fs.Fat()[c] != 0
    modifies fs`disk, fs`winsect, fs`wflag, fs`image, fs`freeClust, fs`fsiFlag, fs.win
    ensures fs.Valid() && IsDisk(fs.g, fs.image) && res == Ok
    ensures fs.Fat() == old(fs.Fat())[c := 0]
    ensures FreeCount(fs.Fat()) == old(FreeCount(fs.Fat())) + 1 <= fs.g.nFatent
    ensures fs.freeClust == if old(fs.freeClust) == 0xFFFF_FFFF then 0xFFFF_FFFF else Inc32(old(fs.freeClust))
    ensures fs.fsiFlag == (old(fs.fsiFlag) || old(fs.freeClust) != 0xFFFF_FFFF)
    ensures SameOutsideFat(fs.g, old(fs.image), fs.image)
    ensures old(MirrorsAgree(fs.g, fs.image)) ==> MirrorsAgree(fs.g, fs.image)
    ensures old(CountTruthful(fs.Fat(), fs.freeClust)) ==> CountTruthful(fs.Fat(), fs.freeClust)
  {
    hide *;
    fs.ImageIsDisk();
    EndMarkOutside(fs.g);
    FreeEntry(fs.Fat(), c, fs.freeClust);
    UnknownIs();
    ZeroEntry(fs.g);
    res := fs.PutFat(c, 0);
    fs.ImageIsDisk();
    if res == Ok && fs.freeClust != UNKNOWN_COUNT {
      fs.freeClust := Inc32(fs.freeClust);
      fs.fsiFlag := true;
    }
  }

  lemma ZeroEntry(g: Geometry)
    ensures 0 % g.EntrySpan() == 0
  {
  }

  /**
   * remove_chain.  On any table, cyclic ones included, it stops, because every round frees an
   * allocated cluster.
   */
  method RemoveChain(fs: Volume, clst: nat) returns (res: Status, ghost steps: seq<Fat>)
    requires fs.Valid()
    modifies fs`disk, fs`winsect, fs`wflag, fs`image, fs`freeClust, fs`fsiFlag, fs.win
    ensures fs.Valid()
    ensures !(2 <= clst < fs.g.nFatent) ==> res == IntErr && fs.Fat() == old(fs.Fat())
    ensures 2 <= clst < fs.g.nFatent ==>
              fs.Fat() == RemoveWalk(old(fs.Fat()), clst).0 && (res == Ok <==> RemoveWalk(old(fs.Fat()), clst).1)
    ensures SameOutsideFat(fs.g, old(fs.image), fs.image)
    ensures old(MirrorsAgree(fs.g, fs.image)) ==> MirrorsAgree(fs.g, fs.image)
    ensures old(CountTruthful(fs.Fat(), fs.freeClust)) ==> CountTruthful(fs.Fat(), fs.freeClust)
    ensures old(WellFormed(fs.Fat()) && IsHead(fs.Fat(), clst)) ==>
              forall i | 0 <= i < |steps| :: WellFormed(steps[i])
    ensures fs.Fat() == if steps == [] then old(fs.Fat()) else steps[|steps| - 1]
    ensures FreeCount(fs.Fat()) == old(FreeCount(fs.Fat())) + |steps|
    ensures old(fs.freeClust) == 0xFFFF_FFFF ==> fs.freeClust == 0xFFFF_FFFF
    ensures old(fs.freeClust) + |steps| < 0xFFFF_FFFF ==> fs.freeClust == old(fs.freeClust) + |steps|
    ensures fs.fsiFlag == (old(fs.fsiFlag) || (old(fs.freeClust) != 0xFFFF_FFFF && steps != []))
  {
    hide Volume.Valid, Volume.Fat, Geometry.Valid, Geometry.EntrySpan, IsDisk, Entry, Table, WellFormed, IsHead,
         FreeCount, MirrorsAgree, CountTruthful;
    fs.ImageIsDisk();
    EndMarkOutside(fs.g);
    steps := [];
    if clst < 2 || clst >= fs.g.nFatent {
      return IntErr, steps;
    }
    res := Ok;
    var c := clst;
    ghost var t := fs.Fat();
    while c < fs.g.nFatent
      invariant fs.Valid() && fs.g.Valid() && IsDisk(fs.g, fs.image) && 2 <= c && res == Ok
      invariant RemoveWalk(fs.Fat(), c) == RemoveWalk(t, clst)
      invariant SameOutsideFat(fs.g, old(fs.image), fs.image)
      invariant MirrorsAgree(fs.g, old(fs.image)) ==> MirrorsAgree(fs.g, fs.image)
      invariant CountTruthful(t, old(fs.freeClust)) ==> CountTruthful(fs.Fat(), fs.freeClust)
      invariant WellFormed(t) && IsHead(t, clst) ==> WellFormed(fs.Fat()) && (c < fs.g.nFatent ==> IsHead(fs.Fat(), c))
      invariant WellFormed(t) && IsHead(t, clst) ==> forall i | 0 <= i < |steps| :: WellFormed(steps[i])
      invariant fs.Fat() == if steps == [] then t else steps[|steps| - 1]
      invariant FreeCount(fs.Fat()) == FreeCount(t) + |steps|
      invariant old(fs.freeClust) == 0xFFFF_FFFF ==> fs.freeClust == 0xFFFF_FFFF
      invariant old(fs.freeClust) + |steps| < 0xFFFF_FFFF ==> fs.freeClust == old(fs.freeClust) + |steps|
      invariant fs.fsiFlag == (old(fs.fsiFlag) || (old(fs.freeClust) != 0xFFFF_FFFF && steps != []))
      decreases |t| - FreeCount(fs.Fat())
    {
      var nxt := fs.GetFat(c);
      if nxt == 0 { break; }
      if nxt == 1 { res := IntErr; break; }
      ghost var u := fs.Fat();
      if WellFormed(u) && IsHead(u, c) { FreeHead(u, c); }
      res := FreeCluster(fs, c);
      if res != Ok { break; }
      steps := steps + [fs.Fat()];
      c := nxt;
    }
  }

  /** What clearing an allocated entry does to the number of free clusters. */
  lemma FreeEntry(t: Fat, c: nat, count: dword)
    requires 2 <= c < |t| < 0x1000_0000 && t[c] != 0
    ensures FreeCount(t[c := 0]) == FreeCount(t) + 1 <= |t|
    ensures CountTruthful(t, count) ==> CountTruthful(t[c := 0], if count == UNKNOWN_COUNT then count else Inc32(count))
  {
    FreeCountUpdate(t, c, 0);
    FreeUpToBound(t[c := 0], |t|);
  }
}
