// Counting free clusters (dfs/ff.c: f_getfree) and when the stored count is the true one.
module FatFree {
  import opened Words
  import opened FatVolume
  import opened FatChain
  import opened FatAlloc

  /** Zero entries among entries 0 .. n - 1, the two reserved ones included. */
  ghost function ZerosUpTo(t: Fat, n: nat): nat
    requires n <= |t|
  {
    if n == 0 then 0 else ZerosUpTo(t, n - 1) + (if t[n - 1] == 0 then 1 else 0)
  }

  lemma {:induction false} ZerosAreFree(t: Fat, n: nat)
    requires 2 <= n <= |t|
    ensures ZerosUpTo(t, n) == FreeUpTo(t, n) + (if t[0] == 0 then 1 else 0) + (if t[1] == 0 then 1 else 0)
  {
    if n == 2 {
      assert ZerosUpTo(t, 1) == if t[0] == 0 then 1 else 0;
    } else {
      ZerosAreFree(t, n - 1);
    }
  }

  /** The first cluster at or after k whose entry is 1, or |t|. */
  ghost function FirstBad(t: Fat, k: nat): (b: nat)
    requires k <= |t|
    ensures k <= b <= |t|
    ensures b < |t| ==> t[b] == 1
    ensures forall c | k <= c < b :: t[c] != 1
    decreases |t| - k
  {
    if k == |t| || t[k] == 1 then k else FirstBad(t, k + 1)
  }

  lemma {:induction false} FirstBadIs(t: Fat, k: nat, b: nat)
    requires k <= b <= |t| && (b < |t| ==> t[b] == 1) && forall c | k <= c < b :: t[c] != 1
    ensures FirstBad(t, k) == b
    decreases b - k
  {
    if k < b { FirstBadIs(t, k + 1, b); }
  }

  /** The number f_getfree stores after a full scan. */
  ghost function Scanned(fatType: FatType, t: Fat): nat
    requires |t| >= 3
  {
    if fatType == Fat12 then FreeUpTo(t, FirstBad(t, 2)) else ZerosUpTo(t, |t|)
  }

  lemma {:induction false} FreeUpToMonotone(t: Fat, m: nat, n: nat)
    requires 2 <= m <= n <= |t|
    ensures FreeUpTo(t, m) <= FreeUpTo(t, n)
    ensures FreeUpTo(t, m) == FreeUpTo(t, n) <==> forall c | m <= c < n :: t[c] != 0
    decreases n - m
  {
    if m < n { FreeUpToMonotone(t, m, n - 1); }
  }

  /**
   * The scanned count is the true one exactly when: on FAT12, no cluster after the first entry 1
   * is free (the scan stops there and stores what it has); on FAT16 and FAT32, whose scan starts
   * at entry 0, neither reserved entry is zero.
   */
  lemma ScannedIsTrue(fatType: FatType, t: Fat)
    requires |t| >= 3
    ensures Scanned(fatType, t) == FreeCount(t) <==>
            if fatType == Fat12 then forall c | FirstBad(t, 2) <= c < |t| :: t[c] != 0
            else t[0] != 0 && t[1] != 0
  {
    FreeUpToMonotone(t, FirstBad(t, 2), |t|);
    ZerosAreFree(t, |t|);
  }

  /** FAT12: entry by entry through get_fat. */
  method CountByEntry(fs: Volume) returns (n: nat, res: Status)
    requires fs.Valid()
    modifies fs`disk, fs`winsect, fs`wflag, fs.win
    ensures fs.Valid()
    ensures n == FreeUpTo(fs.Fat(), FirstBad(fs.Fat(), 2))
    ensures res == if FirstBad(fs.Fat(), 2) == |fs.Fat()| then Ok else IntErr
  {
    hide Volume.Valid, Volume.Fat, Geometry.Valid, IsDisk, Entry, Table, FirstBad;
    fs.ImageIsDisk();
    EndMarkOutside(fs.g);
    ghost var t := fs.Fat();
    n, res := 0, Ok;
    var clst := 2;
    while true
      invariant fs.Valid() && t == fs.Fat() && res == Ok
      invariant 2 <= clst < fs.g.nFatent && n == FreeUpTo(t, clst)
      invariant forall c | 2 <= c < clst :: t[c] != 1
      decreases fs.g.nFatent - clst
    {
      var stat := fs.GetFat(clst);
      if stat == 1 {
        FirstBadIs(t, 2, clst);
        return n, IntErr;
      }
      if stat == 0 { n := n + 1; }
      clst := clst + 1;
      if clst >= fs.g.nFatent { break; }
    }
    FirstBadIs(t, 2, |t|);
  }

  /** FAT16 and FAT32: raw sectors, w bytes per entry, from entry 0 on. */
  method CountBySector(fs: Volume) returns (n: nat)
    requires fs.Valid() && fs.g.fatType != Fat12
    modifies fs`disk, fs`winsect, fs`wflag, fs.win
    ensures fs.Valid()
    ensures n == ZerosUpTo(fs.Fat(), |fs.Fat()|)
  {
    hide Volume.Valid, Volume.Fat, Geometry.Valid, IsDisk, Entry, Table, ZerosUpTo, ScanAligned, ScanInside,
         LdWord, LdDword;
    fs.ImageIsDisk();
    EndMarkOutside(fs.g);
    ghost var t := fs.Fat();
    var w := if fs.g.fatType == Fat16 then 2 else 4;
    var clst, sect, i, p := fs.g.nFatent, fs.g.fatbase, 0, 0;
    n := 0;
    ghost var k := 0;
    ZerosStart(t);
    ScanStart(fs.g, w);
    while true
      invariant fs.Valid() && t == fs.Fat() && 0 < clst && k + clst == fs.g.nFatent
      invariant n == ZerosUpTo(t, k)
      invariant if i == 0 then ScanAligned(fs.g, w, k, sect)
                else
                  && i + p == fs.g.ss && fs.winsect + 1 == sect && fs.winsect < |fs.image|
                  && fs.win[..] == fs.image[fs.winsect] && ScanInside(fs.g, w, k, sect - 1, p)
      decreases clst
    {
      if i == 0 {
        ScanReload(fs.g, w, k, sect);
        fs.MoveWindow(sect);
        sect := sect + 1;
        p := 0;
        i := fs.g.ss;
      }
      ScanEntry(fs.g, fs.image, w, k, sect - 1, p);
      if w == 2 {
        if LdWord(fs.win[..], p) == 0 { n := n + 1; }
      } else {
        if LdDword(fs.win[..], p) % 0x1000_0000 == 0 { n := n + 1; }
      }
      ScanNext(fs.g, w, k, sect - 1, p);
      ZerosStep(t, k);
      p := p + w;
      i := i - w;
      k := k + 1;
      clst := clst - 1;
      if clst == 0 { break; }
    }
  }

  lemma ZerosStart(t: Fat)
    ensures ZerosUpTo(t, 0) == 0
  {
  }

  lemma ZerosStep(t: Fat, k: nat)
    requires k < |t|
    ensures ZerosUpTo(t, k + 1) == ZerosUpTo(t, k) + (if t[k] == 0 then 1 else 0)
  {
  }

  /** Entry k starts a new sector sect. */
  ghost predicate ScanAligned(g: Geometry, w: nat, k: nat, sect: nat) {
    g.fatbase <= sect && k * w == (sect - g.fatbase) * g.ss
  }

  /** Entry k starts at offset p of sector sect. */
  ghost predicate ScanInside(g: Geometry, w: nat, k: nat, sect: nat, p: nat) {
    g.fatbase <= sect && p + w <= g.ss && k * w == (sect - g.fatbase) * g.ss + p
  }

  ghost predicate EntryWidth(g: Geometry, w: nat) {
    w == if g.fatType == Fat16 then 2 else 4
  }

  lemma ScanStart(g: Geometry, w: nat)
    ensures ScanAligned(g, w, 0, g.fatbase)
  {
  }

  lemma ScanReload(g: Geometry, w: nat, k: nat, sect: nat)
    requires g.Valid() && g.fatType != Fat12 && EntryWidth(g, w) && k < g.nFatent && ScanAligned(g, w, k, sect)
    ensures ScanInside(g, w, k, sect, 0)
    ensures 1 <= g.fatbase <= sect < g.SectorCount() && w <= g.ss
  {
    hide Geometry.Valid, Geometry.FatBytes;
    EntryFits(g, k);
    FatByteInRange(g, k * w);
    SectorSize(g);
    DivModUnique(k * w, sect - g.fatbase, 0, g.ss);
  }

  lemma SectorSize(g: Geometry)
    requires g.Valid()
    ensures g.ss >= 512
  {
  }

  lemma ScanEntry(g: Geometry, d: seq<Sector>, w: nat, k: nat, sect: nat, p: nat)
    requires g.Valid() && IsDisk(g, d) && g.fatType != Fat12 && EntryWidth(g, w) && k < g.nFatent
    requires ScanInside(g, w, k, sect, p)
    ensures sect < |d| && |d[sect]| == g.ss && p + w <= g.ss && w in {2, 4}
    ensures w == 2 ==> Entry(g, d, k) == LdWord(d[sect], p)
    ensures w == 4 ==> Entry(g, d, k) == LdDword(d[sect], p) % 0x1000_0000
  {
    hide Geometry.Valid, Geometry.FatBytes, IsDisk, Entry, FatByte, LdWord, LdDword;
    SectorSize(g);
    DivModUnique(k * w, sect - g.fatbase, p, g.ss);
    EntryInOneSector(g, k, w, 0);
    if w == 2 { Fat16At(g, d, k); } else { Fat32At(g, d, k); }
  }

  lemma ScanNext(g: Geometry, w: nat, k: nat, sect: nat, p: nat)
    requires g.Valid() && g.fatType != Fat12 && EntryWidth(g, w) && ScanInside(g, w, k, sect, p)
    ensures if p + w == g.ss then ScanAligned(g, w, k + 1, sect + 1) else ScanInside(g, w, k + 1, sect, p + w)
  {
    hide Geometry.Valid, Geometry.FatBytes;
    SectorSize(g);
    var q := sect - g.fatbase;
    assert (k + 1) * w == q * g.ss + p + w;
    if p + w == g.ss {
      assert (q + 1) * g.ss == q * g.ss + g.ss;
    } else {
      DivModUnique((k + 1) * w, q, p + w, g.ss);
      EntryInOneSector(g, k + 1, w, 0);
    }
  }

  /** f_getfree: answer a plausible stored count, otherwise scan and store. */
  method GetFree(fs: Volume) returns (res: Status, nclst: nat)
    requires fs.Valid()
    modifies fs`disk, fs`winsect, fs`wflag, fs`freeClust, fs`fsiFlag, fs.win
    ensures fs.Valid() && nclst == fs.freeClust
    ensures old(fs.freeClust) <= fs.g.nFatent - 2 ==> res == Ok && fs.freeClust == old(fs.freeClust)
    ensures old(fs.freeClust) > fs.g.nFatent - 2 ==> fs.freeClust == Scanned(fs.g.fatType, fs.Fat())
    ensures res == if old(fs.freeClust) > fs.g.nFatent - 2 && fs.g.fatType == Fat12
            && FirstBad(fs.Fat(), 2) < |fs.Fat()|
                   then IntErr else Ok
    ensures fs.fsiFlag == (old(fs.fsiFlag) || (old(fs.freeClust) > fs.g.nFatent - 2 && fs.g.fatType == Fat32))
    ensures WellFormed(fs.Fat()) && fs.Fat()[0] != 0 && fs.Fat()[1] != 0
            && old(CountTruthful(fs.Fat(), fs.freeClust)) ==>
              res == Ok && nclst == FreeCount(fs.Fat())
  {
    hide Volume.Valid, Volume.Fat, Geometry.Valid, IsDisk, Entry, Table, FirstBad, FreeUpTo, ZerosUpTo, WellFormed;
    fs.ImageIsDisk();
    EndMarkOutside(fs.g);
    ghost var t := fs.Fat();
    FreeUpToBound(t, |t|);
    if WellFormed(t) { WellFormedNoBad(t); }
    ScannedIsTrue(fs.g.fatType, t);
    ScannedBound(fs.g.fatType, t);
    res := Ok;
    if fs.freeClust <= fs.g.nFatent - 2 {
      nclst := fs.freeClust;
    } else {
      if fs.g.fatType == Fat12 {
        nclst, res := CountByEntry(fs);
      } else {
        nclst := CountBySector(fs);
      }
      fs.freeClust := nclst;
      if fs.g.fatType == Fat32 { fs.fsiFlag := true; }
    }
  }

  lemma WellFormedNoBad(t: Fat)
    requires WellFormed(t) && |t| >= 3
    ensures FirstBad(t, 2) == |t|
  {
    var b := FirstBad(t, 2);
    if b < |t| {
      assert HasChain(t, b);
      var ch :| IsChainFrom(t, b, ch);
      ChainStep(t, ch, 0);
    }
  }

  lemma ScannedBound(fatType: FatType, t: Fat)
    requires |t| >= 3
    ensures Scanned(fatType, t) <= |t|
  {
    FreeUpToBound(t, FirstBad(t, 2));
    FreeUpToBound(t, |t|);
    ZerosAreFree(t, |t|);
  }

  /** A FAT12 table on which f_getfree reports an error and leaves a count that is not the true one. */
  lemma StoppedScanMiscounts()
    ensures var t := [0xFF8, 0xFFF, 1, 0];
            Scanned(Fat12, t) == 0 && FreeCount(t) == 1
  {
    var t := [0xFF8, 0xFFF, 1, 0];
    assert FirstBad(t, 2) == 2;
    assert FreeUpTo(t, 3) == 0;
    assert FreeUpTo(t, 4) == 1;
  }
}
