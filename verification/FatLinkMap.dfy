// The cluster link map of fast seek (dfs/ff.c: CREATE_LINKMAP in f_lseek, clmt_clust).
module FatLinkMap {
  import opened Words
  import opened FatVolume
  import opened FatChain
  import opened FatData

  /** A fragment: length consecutive clusters from top on. */
  datatype Run = Run(length: nat, top: nat)

  /** The length of the longest run of consecutive clusters at the front of ch. */
  ghost function FrontRun(ch: seq<nat>): (n: nat)
    requires |ch| > 0
    ensures 1 <= n <= |ch|
    ensures forall i | 0 <= i < n :: ch[i] == ch[0] + i
    ensures n < |ch| ==> ch[n] != ch[0] + n
  {
    if |ch| > 1 && ch[1] == ch[0] + 1 then
      var m := FrontRun(ch[1..]);
      assert forall i | 1 <= i < 1 + m :: ch[i] == ch[1..][i - 1];
      assert 1 + m < |ch| ==> ch[1 + m] == ch[1..][m];
      1 + m
    else 1
  }

  lemma FrontRunIs(ch: seq<nat>, n: nat)
    requires 1 <= n <= |ch| && (forall i | 0 <= i < n :: ch[i] == ch[0] + i) && (n < |ch| ==> ch[n] != ch[0] + n)
    ensures FrontRun(ch) == n
  {
    var m := FrontRun(ch);
    var least := if m < n then m else n;
    assert least < |ch| ==> (ch[least] == ch[0] + least <==> least < m);
  }

  /** The maximal contiguous fragments of a chain, in order. */
  ghost function Runs(ch: seq<nat>): (rs: seq<Run>)
    ensures forall i | 0 <= i < |rs| :: rs[i].length >= 1
  {
    if |ch| == 0 then [] else [Run(FrontRun(ch), ch[0])] + Runs(ch[FrontRun(ch)..])
  }

  /** The fragments as link map items. */
  ghost function Items(rs: seq<Run>): (items: seq<nat>)
    ensures |items| == 2 * |rs|
  {
    if |rs| == 0 then [] else Items(rs[..|rs| - 1]) + [rs[|rs| - 1].length, rs[|rs| - 1].top]
  }

  lemma {:induction false} ItemAt(rs: seq<Run>, i: nat)
    requires i < |rs|
    ensures Items(rs)[2 * i] == rs[i].length && Items(rs)[2 * i + 1] == rs[i].top
  {
    if i < |rs| - 1 { ItemAt(rs[..|rs| - 1], i); }
  }

  /** tbl is a terminated link map of the chain. */
  ghost predicate LinkMapOf(tbl: seq<nat>, ch: seq<nat>) {
    var n := 2 * |Runs(ch)|;
    |tbl| >= n + 2 && tbl[0] == n + 2 && tbl[1..1 + n] == Items(Runs(ch)) && tbl[1 + n] == 0
  }

  /** The cluster that the fragments give for position k, 0 past their end. */
  ghost function RunLookup(rs: seq<Run>, k: nat): nat {
    if |rs| == 0 then 0
    else if k < rs[0].length then k + rs[0].top
    else RunLookup(rs[1..], k - rs[0].length)
  }

  /** The fragments of a chain give exactly the chain. */
  lemma {:induction false} RunLookupIsChain(ch: seq<nat>, k: nat)
    ensures RunLookup(Runs(ch), k) == if k < |ch| then ch[k] else 0
    decreases |ch|
  {
    if |ch| > 0 {
      var n := FrontRun(ch);
      assert Runs(ch)[1..] == Runs(ch[n..]);
      if k >= n { RunLookupIsChain(ch[n..], k - n); }
    }
  }

  /** clmt_clust: the cluster that holds byte ofs, from the link map alone. */
  method ClmtClust(g: Geometry, tbl: array<nat>, ofs: nat, ghost ch: seq<nat>) returns (clst: nat)
    requires g.ss > 0 && g.csize > 0 && LinkMapOf(tbl[..], ch)
    ensures clst == if ClusterIndex(g, ofs) < |ch| then ch[ClusterIndex(g, ofs)] else 0
  {
    hide ClusterIndex, Runs, Items;
    ghost var rs := Runs(ch);
    var p := 1;
    var cl := ClusterIndex(g, ofs);
    IndexNat(g, ofs);
    RunLookupIsChain(ch, cl);
    ghost var i := 0;
    assert rs[0..] == rs;
    while true
      invariant 0 <= i <= |rs| && p == 1 + 2 * i && 0 <= cl
      invariant RunLookup(rs[i..], cl) == RunLookup(rs, ClusterIndex(g, ofs))
      decreases |rs| - i
    {
      TableItem(tbl[..], ch, i);
      var ncl := tbl[p];
      p := p + 1;
      if ncl == 0 { return 0; }
      if cl < ncl { break; }
      assert rs[i..][1..] == rs[i + 1..];
      cl := cl - ncl;
      p := p + 1;
      i := i + 1;
    }
    clst := cl + tbl[p];
  }

  lemma IndexNat(g: Geometry, p: nat)
    requires g.ss > 0 && g.csize > 0
    ensures ClusterIndex(g, p) >= 0
  {
  }

  lemma TableItem(tbl: seq<nat>, ch: seq<nat>, i: nat)
    requires LinkMapOf(tbl, ch) && i <= |Runs(ch)|
    ensures |tbl| > 1 + 2 * i
    ensures if i == |Runs(ch)| then tbl[1 + 2 * i] == 0
            else
              && 1 + 2 * i + 1 < |tbl|
              && tbl[1 + 2 * i] == Runs(ch)[i].length >= 1 && tbl[1 + 2 * i + 1] == Runs(ch)[i].top
  {
    hide Runs, Items;
    if i < |Runs(ch)| {
      ItemAt(Runs(ch), i);
      var n := 2 * |Runs(ch)|;
      assert tbl[1 + 2 * i] == tbl[1..1 + n][2 * i] && tbl[2 + 2 * i] == tbl[1..1 + n][2 * i + 1];
    }
  }

  /** The chain's last entry is the number that follows its last cluster, so that the end looks like one more link. */
  ghost predicate EndLooksContiguous(t: Fat, ch: seq<nat>)
    requires |ch| > 0 && InRange(t, ch[|ch| - 1])
  {
    t[ch[|ch| - 1]] == ch[|ch| - 1] + 1
  }

  /** The inner loop of CREATE_LINKMAP: the front fragment of ch and what follows it. */
  method NextRun(fs: Volume, top: nat, ghost ch: seq<nat>) returns (ncl: nat, cl: nat, res: Status)
    requires fs.Valid() && IsChainFrom(fs.Fat(), top, ch)
    modifies fs`disk, fs`winsect, fs`wflag, fs.win
    ensures fs.Valid()
    ensures InRange(fs.Fat(), ch[|ch| - 1])
    ensures res == if FrontRun(ch) == |ch| && EndLooksContiguous(fs.Fat(), ch) then IntErr else Ok
    ensures res == Ok ==> ncl == FrontRun(ch) && if ncl < |ch| then cl == ch[ncl] else cl >= fs.g.nFatent
  {
    hide Volume.Valid, Volume.Fat, Geometry.Valid, IsDisk, Entry, Table, IsChain, FrontRun;
    fs.ImageIsDisk();
    ghost var t := fs.Fat();
    ChainStep(t, ch, |ch| - 1);
    ncl, cl := 0, top;
    while true
      invariant fs.Valid() && t == fs.Fat() && 0 <= ncl <= |ch|
      invariant forall i | 0 <= i <= ncl && i < |ch| :: ch[i] == ch[0] + i
      invariant if ncl < |ch| then cl == ch[ncl] else cl >= fs.g.nFatent && EndLooksContiguous(t, ch)
      decreases |ch| - ncl
    {
      var pcl := cl;
      if ncl < |ch| { ChainStep(t, ch, ncl); } else { FrontRunIs(ch, ncl); }
      ncl := ncl + 1;
      cl := fs.GetFat(cl);
      if cl <= 1 { return ncl, cl, IntErr; }
      if cl != pcl + 1 { break; }
    }
    FrontRunIs(ch, ncl);
    res := Ok;
  }

  /** The fragments of ch: those of its front and those of the rest. */
  lemma RunsSplit(ch: seq<nat>, i: nat, done: seq<Run>)
    requires i < |ch| && Runs(ch) == done + Runs(ch[i..])
    ensures i + FrontRun(ch[i..]) <= |ch|
    ensures Runs(ch) == done + [Run(FrontRun(ch[i..]), ch[i])] + Runs(ch[i + FrontRun(ch[i..])..])
  {
    hide Runs, FrontRun;
    var n := FrontRun(ch[i..]);
    RunsUnfold(ch[i..]);
    assert ch[i..][n..] == ch[i + n..];
    Regroup(done, Run(n, ch[i]), Runs(ch[i + n..]));
  }

  lemma Regroup(a: seq<Run>, r: Run, b: seq<Run>)
    ensures a + ([r] + b) == a + [r] + b
  {
  }

  lemma RunsUnfold(ch: seq<nat>)
    requires |ch| > 0
    ensures Runs(ch) == [Run(FrontRun(ch), ch[0])] + Runs(ch[FrontRun(ch)..])
  {
  }

  lemma RunsNone(ch: seq<nat>)
    ensures |ch| == 0 ==> Runs(ch) == []
  {
  }

  lemma ItemsMore(done: seq<Run>, r: Run)
    ensures Items(done + [r]) == Items(done) + [r.length, r.top]
  {
    assert (done + [r])[..|done|] == done;
  }

  /** The table's first items are those of done, as far as the table reaches; nothing from tlen on was touched. */
  ghost predicate Filled(tbl: seq<nat>, before: seq<nat>, tlen: nat, done: seq<Run>) {
    && |tbl| == |before| && tlen <= |tbl| && |tbl| >= 1
    && (forall i | tlen <= i < |tbl| && i > 0 :: tbl[i] == before[i])
    && (2 + 2 * |done| <= tlen ==> tbl[1..1 + 2 * |done|] == Items(done))
  }

  lemma FilledMore(tbl: seq<nat>, before: seq<nat>, tlen: nat, done: seq<Run>, r: Run)
    requires Filled(tbl, before, tlen, done)
    ensures var p := 1 + 2 * |done|;
            if p + 3 <= tlen then Filled(tbl[p := r.length][p + 1 := r.top], before, tlen, done + [r])
            else Filled(tbl, before, tlen, done + [r])
  {
    hide Items;
    var p := 1 + 2 * |done|;
    ItemsMore(done, r);
    if p + 3 <= tlen {
      var t := tbl[p := r.length][p + 1 := r.top];
      assert t[1..p + 2] == t[1..p] + [r.length, r.top];
      assert t[1..p] == tbl[1..p];
    }
  }

  /** The outer loop of CREATE_LINKMAP over a non-empty chain. */
  method FillMap(fs: Volume, sclust: nat, tbl: array<nat>, tlen: nat, ghost ch: seq<nat>)
    returns (p: nat, ulen: nat, res: Status, ghost done: seq<Run>)
    requires fs.Valid() && IsChainFrom(fs.Fat(), sclust, ch) && 1 <= tbl.Length && tlen <= tbl.Length
    modifies tbl, fs`disk, fs`winsect, fs`wflag, fs.win
    ensures fs.Valid() && InRange(fs.Fat(), ch[|ch| - 1])
    ensures res == if EndLooksContiguous(fs.Fat(), ch) then IntErr else Ok
    ensures Filled(tbl[..], old(tbl[..]), tlen, done) && (res == Ok ==> done == Runs(ch))
    ensures res == Ok ==> ulen == 2 + 2 * |Runs(ch)| && (ulen <= tlen ==> p == ulen - 1)
  {
    hide *;
    fs.ImageIsDisk();
    ChainHead(fs.Fat(), sclust, ch);
    ghost var t := fs.Fat();
    ghost var before := tbl[..];
    var cl := sclust;
    p, ulen, res := 1, 2, Ok;
    done := [];
    FilledStart(tbl[..], tlen);
    ghost var i := 0;
    assert ch[0..] == ch;
    ChainStep(t, ch, |ch| - 1);
    while true
      invariant fs.Valid() && t == fs.Fat() && 0 <= i < |ch| && cl == ch[i]
      invariant ulen == 2 + 2 * |done| && (ulen <= tlen ==> p == ulen - 1)
      invariant Runs(ch) == done + Runs(ch[i..])
      invariant Filled(tbl[..], before, tlen, done)
      decreases |ch| - i
    {
      var tcl := cl;
      var ncl;
      ulen := ulen + 2;
      ChainSuffix(t, ch, i);
      ChainTail(t, ch[i..]);
      RunsSplit(ch, i, done);
      ncl, cl, res := NextRun(fs, tcl, ch[i..]);
      EndOfSuffix(t, ch, i);
      if res != Ok { return; }
      FilledMore(tbl[..], before, tlen, done, Run(ncl, tcl));
      if ulen <= tlen {
        tbl[p] := ncl;
        tbl[p + 1] := tcl;
        p := p + 2;
      }
      done := done + [Run(ncl, tcl)];
      i := i + ncl;
      if i < |ch| { ChainStep(t, ch, i); }
      if cl >= fs.g.nFatent { break; }
    }
    RunsNone(ch[i..]);
  }

  lemma FilledStart(tbl: seq<nat>, tlen: nat)
    requires 1 <= |tbl| && tlen <= |tbl|
    ensures Filled(tbl, tbl, tlen, [])
  {
    ItemsNone();
  }

  /**
   * f_lseek with CREATE_LINKMAP.  Item 0 gives the table's length and receives the length needed;
   * the table is the chain's link map exactly if that fits.
   */
  method CreateLinkMap(fs: Volume, sclust: nat, tbl: array<nat>, ghost ch: seq<nat>) returns (res: Status)
    requires fs.Valid() && 1 <= tbl.Length && tbl[0] <= tbl.Length
    requires if sclust == 0 then ch == [] else IsChainFrom(fs.Fat(), sclust, ch)
    modifies tbl, fs`disk, fs`winsect, fs`wflag, fs.win
    ensures fs.Valid()
    ensures |ch| > 0 ==> InRange(fs.Fat(), ch[|ch| - 1])
    ensures res == IntErr <==> |ch| > 0 && EndLooksContiguous(fs.Fat(), ch)
    ensures res != IntErr ==> tbl[0] == 2 + 2 * |Runs(ch)|
    ensures res != IntErr ==> res == if 2 + 2 * |Runs(ch)| <= old(tbl[0]) then Ok else NotEnoughCore
    ensures res == Ok ==> LinkMapOf(tbl[..], ch)
    ensures forall i | old(tbl[0]) <= i < tbl.Length && i > 0 :: tbl[i] == old(tbl[i])
  {
    hide Volume.Valid, Volume.Fat, Geometry.Valid, IsDisk, Entry, Table, IsChain, FrontRun, Runs, Items,
         EndLooksContiguous;
    fs.ImageIsDisk();
    var tlen := tbl[0];
    var p, ulen := 1, 2;
    res := Ok;
    RunsNone(ch);
    FilledStart(tbl[..], tlen);
    ghost var before := tbl[..];
    if sclust != 0 {
      ghost var done;
      p, ulen, res, done := FillMap(fs, sclust, tbl, tlen, ch);
      FilledKeeps(tbl[..], before, tlen, done);
      if res != Ok { return; }
    }
    ghost var full := tbl[..];
    tbl[0] := ulen;
    if ulen <= tlen {
      tbl[p] := 0;
      assert tbl[1..p] == full[1..p];
    } else {
      res := NotEnoughCore;
    }
  }

  lemma FilledKeeps(tbl: seq<nat>, before: seq<nat>, tlen: nat, done: seq<Run>)
    requires Filled(tbl, before, tlen, done)
    ensures |tbl| == |before| && forall i | tlen <= i < |tbl| && i > 0 :: tbl[i] == before[i]
  {
  }

  lemma ItemsNone()
    ensures Items([]) == []
  {
  }

  lemma EndOfSuffix(t: Fat, ch: seq<nat>, i: nat)
    requires i < |ch| && InRange(t, ch[|ch| - 1])
    ensures EndLooksContiguous(t, ch[i..]) <==> EndLooksContiguous(t, ch)
    ensures FrontRun(ch[i..]) == |ch| - i || FrontRun(ch[i..]) < |ch| - i
  {
  }

  /** A chain whose end mark is the number after its last cluster: CREATE_LINKMAP fails on it. */
  lemma EndMarkThatLooksLikeALink()
    ensures var t, ch := [0xFF8, 0xFFF, 3, 4], [2, 3];
            IsChainFrom(t, 2, ch) && InRange(t, ch[|ch| - 1]) && EndLooksContiguous(t, ch)
  {
  }

  /**
   * Chains that create_chain ended: the end is taken for a link exactly if the last cluster is the one
   * before the stored mark, which only a FAT32 volume of the largest size has.
   */
  lemma OwnEndMarkIsSafe(g: Geometry, t: Fat, ch: seq<nat>)
    requires g.Valid() && |t| == g.nFatent && IsChain(t, ch)
    requires t[ch[|ch| - 1]] == END_MARK % g.EntrySpan()
    ensures InRange(t, ch[|ch| - 1])
    ensures EndLooksContiguous(t, ch) <==> g.fatType == Fat32 && ch[|ch| - 1] == END_MARK - 1
    ensures g.nFatent < END_MARK ==> !EndLooksContiguous(t, ch)
  {
    ChainStep(t, ch, |ch| - 1);
  }

  /** The chain 2, 3, 4, 9, 6, 7 has three fragments: length and top of each, in eight items. */
  lemma SmallMap()
    ensures LinkMapOf([8, 3, 2, 1, 9, 2, 6, 0], [2, 3, 4, 9, 6, 7])
  {
    hide Runs, Items, FrontRun;
    var ch: seq<nat> := [2, 3, 4, 9, 6, 7];
    FrontRunIs(ch, 3);
    RunsUnfold(ch);
    assert ch[3..] == [9, 6, 7];
    FrontRunIs([9, 6, 7], 1);
    RunsUnfold([9, 6, 7]);
    assert [9, 6, 7][1..] == [6, 7];
    FrontRunIs([6, 7], 2);
    RunsUnfold([6, 7]);
    assert [6, 7][2..] == [];
    RunsNone([]);
    ItemsNone();
    ItemsMore([], Run(3, 2));
    ItemsMore([Run(3, 2)], Run(1, 9));
    ItemsMore([Run(3, 2), Run(1, 9)], Run(2, 6));
    assert Runs(ch) == [] + [Run(3, 2)] + [Run(1, 9)] + [Run(2, 6)];
    assert [] + [Run(3, 2)] == [Run(3, 2)] && [Run(3, 2)] + [Run(1, 9)] == [Run(3, 2), Run(1, 9)];
  }

  lemma ChainTail(t: Fat, ch: seq<nat>)
    requires IsChain(t, ch)
    ensures |ch| > 0 && IsChainFrom(t, ch[0], ch)
  {
  }

  lemma ChainHead(t: Fat, c: nat, ch: seq<nat>)
    requires IsChainFrom(t, c, ch)
    ensures |ch| > 0 && ch[0] == c && IsChain(t, ch)
  {
    hide IsChain;
  }
}
