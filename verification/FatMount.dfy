// Mounting a volume from its boot record, and why every volume f_mkfs lays out
// mounts (dfs/ff.c: check_fs, chk_mounted).
module FatMount {
  import opened Words
  import opened FatVolume
  import opened FatFormat

  /** The boot record fields chk_mounted looks at. */
  datatype Fields = Fields(
    bytsPerSec: nat,
    fatSz16: nat,
    fatSz32: nat,
    numFats: nat,
    secPerClus: nat,
    rootEntCnt: nat,
    totSec16: nat,
    totSec32: nat,
    rsvdSecCnt: nat,
    rootClus: nat,
    fsInfo: nat)
  {
    function Total(): nat {
      if totSec16 != 0 then totSec16 else totSec32
    }

    function FatSize(): nat {
      if fatSz16 != 0 then fatSz16 else fatSz32
    }
  }

  function FieldsOf(s: Sector): (f: Fields)
    requires |s| >= 512
  {
    Fields(LdWord(s, BPB_BYTS_PER_SEC), LdWord(s, BPB_FAT_SZ16), LdDword(s, BPB_FAT_SZ32), s[BPB_NUM_FATS],
           s[BPB_SEC_PER_CLUS], LdWord(s, BPB_ROOT_ENT_CNT), LdWord(s, BPB_TOT_SEC16), LdDword(s, BPB_TOT_SEC32),
           LdWord(s, BPB_RSVD_SEC_CNT), LdDword(s, BPB_ROOT_CLUS), LdWord(s, BPB_FS_INFO))
  }

  /** What chk_mounted puts into the file system object. */
  datatype Mounting =
    | Mounted(g: Geometry, rootEntries: nat, dirbase: nat, fsiSector: nat)
    | NoFilesystem
    | DiskErr

  function Wrap(v: int): (r: nat)
    ensures r < DWORD_SPAN
  {
    v % 0x1_0000_0000
  }

  lemma WrapSmall(v: nat)
    requires v < DWORD_SPAN
    ensures Wrap(v) == v
  {
  }

  function RootSectors(f: Fields, ss: nat): nat
    requires SectorSizeOk(ss)
  {
    f.rootEntCnt / (ss / SZ_DIR)
  }

  /** RSV + FAT + DIR, before the 32-bit cut. */
  function SystemArea(f: Fields, ss: nat): nat
    requires SectorSizeOk(ss)
  {
    f.rsvdSecCnt + (if f.numFats == 2 then 2 * f.FatSize() else f.FatSize()) + RootSectors(f, ss)
  }

  function ClusterCount(total: nat, sys: nat, csize: nat): nat
    requires csize > 0 && sys <= total
  {
    (total - sys) / csize
  }

  /** The analysis of a boot record found at sector bsect, with the checks in their order. */
  function Analyse(f: Fields, ss: nat, bsect: nat): Mounting
    requires SectorSizeOk(ss)
  {
    if f.bytsPerSec != ss then NoFilesystem
    else if f.numFats != 1 && f.numFats != 2 then NoFilesystem
    else if f.secPerClus == 0 || !PowerOfTwo(f.secPerClus) then NoFilesystem
    else if f.rootEntCnt % (ss / SZ_DIR) != 0 then NoFilesystem
    else if f.rsvdSecCnt == 0 then NoFilesystem
    else if f.Total() < Wrap(SystemArea(f, ss)) then NoFilesystem
    else
      Settle(f, ss, bsect, ClusterCount(f.Total(), Wrap(SystemArea(f, ss)), f.secPerClus))
  }

  /** The second half of the analysis, once the number of clusters is known. */
  function Settle(f: Fields, ss: nat, bsect: nat, nclst: nat): Mounting
    requires SectorSizeOk(ss)
  {
    if nclst == 0 then NoFilesystem else
    var fatType := SubType(nclst);
    if (fatType == Fat32) != (f.rootEntCnt == 0) then NoFilesystem
    else if f.FatSize() < Wrap(Wrap(TableBytes(fatType, nclst + 2)) + (ss - 1)) / ss then NoFilesystem
    else
      var g := Geometry(fatType, ss, f.secPerClus, f.numFats, nclst + 2, f.FatSize(),
                        Wrap(bsect + f.rsvdSecCnt), Wrap(bsect + Wrap(SystemArea(f, ss))));
      var dirbase := if fatType == Fat32 then f.rootClus
                     else Wrap(g.fatbase + (if f.numFats == 2 then 2 * f.FatSize() else f.FatSize()));
      Mounted(g, f.rootEntCnt, dirbase, if fatType == Fat32 then Wrap(bsect + f.fsInfo) else 0)
  }

  /** Nothing in the analysis of f exceeds 32 bits, the volume ends within them, and cluster numbers fit 28 bits. */
  ghost predicate NoOverflow(f: Fields, ss: nat, bsect: nat)
    requires SectorSizeOk(ss)
  {
    && SystemArea(f, ss) < DWORD_SPAN
    && bsect + f.Total() <= DWORD_SPAN
    && (f.secPerClus > 0 && SystemArea(f, ss) <= f.Total() ==>
          ClusterCount(f.Total(), SystemArea(f, ss), f.secPerClus) + 2 <= END_MARK)
  }

  /** What the checks are for: whatever boot record passes them describes a volume the other operations can work on. */
  lemma MountedIsValid(f: Fields, ss: nat, bsect: nat)
    requires SectorSizeOk(ss) && NoOverflow(f, ss, bsect) && f.secPerClus < 0x100
    requires Analyse(f, ss, bsect).Mounted?
    ensures Analyse(f, ss, bsect).g.Valid()
    ensures Analyse(f, ss, bsect).g.SectorCount() <= bsect + f.Total()
  {
    hide Geometry.Valid, PowerOfTwo, Wrap, SystemArea, TableBytes, Fields.Total, Fields.FatSize, SubType, Settle,
         ClusterCount, SectorSizeOk;
    var sys := SystemArea(f, ss);
    WrapSmall(sys);
    var nclst := ClusterCount(f.Total(), sys, f.secPerClus);
    SmallPower(f.secPerClus);
    ClusterRoom(f.Total(), sys, f.secPerClus);
    SettledIsValid(f, ss, bsect, nclst);
  }

  lemma ClusterRoom(total: nat, sys: nat, csize: nat)
    requires csize > 0 && sys <= total
    ensures sys + ClusterCount(total, sys, csize) * csize <= total
    ensures sys + ClusterCount(total, sys, csize) <= total
  {
    var x := total - sys;
    var q := x / csize;
    assert x == q * csize + x % csize;
    MulLe(1, csize, q);
  }

  lemma SettledIsValid(f: Fields, ss: nat, bsect: nat, nclst: nat)
    requires SectorSizeOk(ss) && NoOverflow(f, ss, bsect)
    requires 1 <= f.numFats <= 2 && f.rsvdSecCnt > 0
    requires f.secPerClus in {1, 2, 4, 8, 16, 32, 64, 128}
    requires nclst + 2 <= END_MARK && SystemArea(f, ss) + nclst <= f.Total()
             && SystemArea(f, ss) + nclst * f.secPerClus <= f.Total()
    requires Settle(f, ss, bsect, nclst).Mounted?
    ensures Settle(f, ss, bsect, nclst).g.Valid()
    ensures Settle(f, ss, bsect, nclst).g.SectorCount() <= bsect + f.Total()
  {
    hide Wrap, TableBytes, PowerOfTwo, Geometry.RequiredFatBytes, Geometry.FatBytes, RootSectors;
    var g := Settle(f, ss, bsect, nclst).g;
    var sys := SystemArea(f, ss);
    WrapSmall(sys);
    MulGap(nclst, f.secPerClus);
    WrapSmall(bsect + sys);
    WrapSmall(bsect + f.rsvdSecCnt);
    TableBytesSmall(g.fatType, nclst + 2, ss);
    EnoughSectors(g, f.FatSize(), TableBytes(g.fatType, nclst + 2), ss);
  }

  lemma TableBytesSmall(fatType: FatType, n: nat, ss: nat)
    requires n < 0x1000_0002 && ss <= 4096
    ensures Wrap(TableBytes(fatType, n)) == TableBytes(fatType, n)
    ensures ss > 0 ==> Wrap(TableBytes(fatType, n) + (ss - 1)) == TableBytes(fatType, n) + (ss - 1)
  {
    hide Wrap;
    WrapSmall(TableBytes(fatType, n));
    if ss > 0 { WrapSmall(TableBytes(fatType, n) + (ss - 1)); }
  }

  lemma EnoughSectors(g: Geometry, fsize: nat, bytes: nat, ss: nat)
    requires ss > 0 && fsize == g.fsize && ss == g.ss && bytes == TableBytes(g.fatType, g.nFatent)
    ensures fsize >= (bytes + (ss - 1)) / ss <==> g.RequiredFatBytes() <= g.FatBytes()
    ensures fsize >= (bytes + (ss - 1)) / ss && g.nFatent > 0 ==> fsize > 0
  {
    CeilLe(bytes, ss, fsize);
  }

  /** n >= ceil(x / d) exactly when n blocks of d hold x. */
  lemma CeilLe(x: nat, d: nat, n: nat)
    requires d > 0
    ensures n >= (x + (d - 1)) / d <==> x <= n * d
  {
    DivBound(x + (d - 1), n + 1, d);
    assert (n + 1) * d == n * d + d;
  }

  // ----- Mounting what f_mkfs laid out -----

  ghost predicate GoodUnit(au: nat) {
    au in {1, 2, 4, 8, 16, 32, 64, 128}
  }

  /** The layout of f_mkfs before and after the data area is moved to an erase block boundary. */
  lemma PlanFacts(ss: nat, nDrive: nat, sfd: bool, au: nat, block: nat)
    requires SectorSizeOk(ss) && GoodUnit(au) && au > 0 && nDrive < DWORD_SPAN && UnitsIn(nDrive, au) + 2 <= END_MARK
    requires PlanOf(ss, nDrive, sfd, au, block).Planned?
    ensures var l := PlanOf(ss, nDrive, sfd, au, block).layout;
            && Sound(l) && l.ss == ss && l.au == au
            && l.bVol == (if sfd then 0 else FDISK_START) && l.bVol + l.nVol == nDrive
            && (1 < block <= 32768 ==> (l.bVol + l.SystemSectors()) % block == 0)
  {
    hide *;
    PlanIs(ss, nDrive, sfd, au, block);
    var n := BlockSectors(block);
    var base := BaseLayout(ss, nDrive, sfd, au);
    BaseFacts(ss, nDrive, sfd, au);
    RealignedFacts(base, n);
  }

  lemma PlanIs(ss: nat, nDrive: nat, sfd: bool, au: nat, block: nat)
    requires SectorSizeOk(ss) && GoodUnit(au)
    requires PlanOf(ss, nDrive, sfd, au, block).Planned?
    ensures nDrive >= 128 && au > 0 && (1 < block <= 32768 ==> BlockSectors(block) == block)
    ensures var base := BaseLayout(ss, nDrive, sfd, au);
            var l := Realigned(base, BlockSectors(block));
            && base.bVol + base.SystemSectors() + au <= base.nVol
            && PlanOf(ss, nDrive, sfd, au, block).layout == l
            && l.au == au
            && (l.fatType == Fat16 ==> FinalClusters(l) >= MIN_FAT16)
            && (l.fatType == Fat32 ==> FinalClusters(l) >= MIN_FAT32)
  {
    hide BaseLayout, FinalClusters, AlignUp, SectorSizeOk;
    BaseUnit(ss, nDrive, sfd, au);
  }

  lemma BaseUnit(ss: nat, nDrive: nat, sfd: bool, au: nat)
    requires SectorSizeOk(ss) && au > 0 && nDrive >= 128
    ensures BaseLayout(ss, nDrive, sfd, au).au == au
  {
  }

  lemma BaseFacts(ss: nat, nDrive: nat, sfd: bool, au: nat)
    requires SectorSizeOk(ss) && GoodUnit(au) && au > 0 && 128 <= nDrive < DWORD_SPAN
             && UnitsIn(nDrive, au) + 2 <= END_MARK
    ensures var l := BaseLayout(ss, nDrive, sfd, au);
            && l.ss == ss && l.au == au && l.bVol == (if sfd then 0 else FDISK_START) && l.bVol + l.nVol == nDrive
            && l.fatType == SubType(UnitsIn(l.nVol, au))
            && l.nRsv == (if l.fatType == Fat32 then 32 else 1)
            && l.nDir == (if l.fatType == Fat32 then 0 else RootDirSectors(ss))
            && PlannedFatBytes(l.fatType, UnitsIn(l.nVol, au)) <= l.nFat * ss
            && l.nFat < (if l.fatType == Fat32 then 0x1000_0000 else 0x1000)
            && (l.fatType == Fat32 ==> l.nFat <= UnitsIn(l.nVol, au) / 128 + 2)
            && UnitsIn(l.nVol, au) + 2 <= END_MARK
  {
    hide CeilDiv, SubType, PlannedFatBytes, SectorSizeOk, UnitsIn, RootDirSectors, GoodUnit;
    var nVol := nDrive - (if sfd then 0 else FDISK_START);
    UnitDivides(nVol, au);
    MoreUnits(nVol, nDrive, au);
    FatSizes(UnitsIn(nVol, au), ss);
  }

  lemma RealignedFacts(base: Layout, n: nat)
    requires SectorSizeOk(base.ss) && GoodUnit(base.au) && 0 < n <= 32768
    requires 0 < base.nVol && base.bVol + base.nVol < DWORD_SPAN && base.bVol <= FDISK_START
    requires UnitsIn(base.nVol, base.au) + 2 <= END_MARK
    requires base.fatType == SubType(UnitsIn(base.nVol, base.au))
    requires base.nRsv == (if base.fatType == Fat32 then 32 else 1)
    requires base.nDir == (if base.fatType == Fat32 then 0 else RootDirSectors(base.ss))
    requires PlannedFatBytes(base.fatType, UnitsIn(base.nVol, base.au)) <= base.nFat * base.ss
    requires base.nFat < (if base.fatType == Fat32 then 0x1000_0000 else 0x1000)
    requires base.fatType == Fat32 ==> base.nFat <= UnitsIn(base.nVol, base.au) / 128 + 2
    requires var l := Realigned(base, n);
             && (l.fatType == Fat16 ==> FinalClusters(l) >= MIN_FAT16)
             && (l.fatType == Fat32 ==> FinalClusters(l) >= MIN_FAT32)
    ensures var l := Realigned(base, n);
            && l == base.(nRsv := l.nRsv, nFat := l.nFat) && Sound(l)
            && (l.bVol + l.SystemSectors()) % n == 0
  {
    hide AlignUp, SubType, PlannedFatBytes, SectorSizeOk, UnitsIn, RootDirSectors, FinalClusters, Layout.Clusters;
    var l := Realigned(base, n);
    var bData := base.bVol + base.SystemSectors();
    AlignedUp(bData, n);
    assert l.bVol + l.SystemSectors() == AlignUp(bData, n);
    MulLe(base.nFat, l.nFat, base.ss);
    if l.fatType == Fat32 {
      BigVolume(UnitsIn(base.nVol, base.au));
      UnitDivides(base.nVol, base.au);
    }
    if l.Fits() {
      FinalType(l, UnitsIn(base.nVol, base.au));
    }
  }

  /** What f_mkfs guarantees about a layout it goes on to write. */
  ghost predicate Sound(l: Layout) {
    && LayoutStorable(l) && GoodUnit(l.au)
    && 0 < l.nVol && l.bVol + l.nVol < DWORD_SPAN && l.bVol <= FDISK_START
    && UnitsIn(l.nVol, l.au) + 2 <= END_MARK
    && l.nRsv >= (if l.fatType == Fat32 then 32 else 1)
    && l.nDir == (if l.fatType == Fat32 then 0 else RootDirSectors(l.ss))
    && PlannedFatBytes(l.fatType, UnitsIn(l.nVol, l.au)) <= l.nFat * l.ss
    && (l.fatType == Fat32 ==> l.Fits())
    && (l.Fits() ==> SubType(l.Clusters()) == l.fatType && l.Clusters() <= UnitsIn(l.nVol, l.au))
  }

  lemma BigVolume(n: nat)
    requires SubType(n) == Fat32
    ensures 32 + 32768 + (n / 128 + 2) + 128 <= n
  {
  }

  lemma RootArea(ss: nat)
    requires SectorSizeOk(ss)
    ensures RootDirSectors(ss) == N_ROOTDIR / (ss / SZ_DIR) && N_ROOTDIR % (ss / SZ_DIR) == 0
    ensures 1 <= RootDirSectors(ss) <= 32
    ensures 512 <= ss <= 4096
  {
  }

  lemma UnitDivides(n: nat, au: nat)
    requires GoodUnit(au)
    ensures au > 0 && 0 <= UnitsIn(n, au) <= n
  {
  }

  lemma MoreUnits(x: nat, y: nat, au: nat)
    requires x <= y && au > 0
    ensures UnitsIn(x, au) <= UnitsIn(y, au)
  {
    FewerBlocks(x, y, au);
  }

  lemma FatSizes(n: nat, ss: nat)
    requires SectorSizeOk(ss) && n < 0x1000_0000
    ensures var t := SubType(n);
            && PlannedFatBytes(t, n) <= CeilDiv(PlannedFatBytes(t, n), ss) * ss
            && CeilDiv(PlannedFatBytes(t, n), ss) < (if t == Fat32 then 0x1000_0000 else 0x1000)
            && (t == Fat32 ==> CeilDiv(PlannedFatBytes(t, n), ss) <= n / 128 + 2)
  {
    hide SectorSizeOk;
    RootArea(ss);
    var t := SubType(n);
    var x := PlannedFatBytes(t, n);
    CeilLe(x, ss, CeilDiv(x, ss));
    var m := if t == Fat32 then 0xFFF_FFFF else 0xFFF;
    assert x <= m * 512 <= m * ss by { MulLe(512, ss, m); }
    CeilLe(x, ss, m);
    if t == Fat32 {
      assert x <= (n / 128 + 2) * 512 <= (n / 128 + 2) * ss by { MulLe(512, ss, n / 128 + 2); }
      CeilLe(x, ss, n / 128 + 2);
    }
  }

  lemma AlignedUp(x: nat, n: nat)
    requires n > 0
    ensures AlignUp(x, n) % n == 0 && x <= AlignUp(x, n) < x + n
  {
    var q := (x + n - 1) / n;
    DivModUnique(q * n, q, 0, n);
  }

  /** Taking the system area away leaves the sub-type alone, given the final check of f_mkfs. */
  lemma FinalType(l: Layout, n: nat)
    requires GoodUnit(l.au) && l.Fits() && n == UnitsIn(l.nVol, l.au) && l.fatType == SubType(n) && l.nVol < DWORD_SPAN
    requires l.fatType == Fat16 ==> FinalClusters(l) >= MIN_FAT16
    requires l.fatType == Fat32 ==> FinalClusters(l) >= MIN_FAT32
    ensures SubType(l.Clusters()) == l.fatType && l.Clusters() <= n
  {
    var x := l.nVol - l.SystemSectors();
    ModSmall(x);
    FewerBlocks(x, l.nVol, l.au);
  }

  lemma ModSmall(x: nat)
    requires x < DWORD_SPAN
    ensures x % 0x1_0000_0000 == x
  {
  }

  lemma FewerBlocks(x: nat, y: nat, d: nat)
    requires x <= y && d > 0
    ensures x / d <= y / d
  {
    DivBound(x, y / d + 1, d);
    DivBound(y, y / d + 1, d);
  }

  /** The geometry a mount gives a volume of layout l. */
  ghost function GeometryOf(l: Layout): Geometry
    requires l.au > 0 && l.Fits()
  {
    Geometry(l.fatType, l.ss, l.au, 1, l.Clusters() + 2, l.nFat, l.bVol + l.nRsv, l.bVol + l.SystemSectors())
  }

  /** Where the mount looks for the root directory: a cluster on FAT32, else a sector. */
  ghost function RootBase(l: Layout): nat {
    if l.fatType == Fat32 then 2 else l.bVol + l.nRsv + l.nFat
  }

  ghost predicate VbrFields(f: Fields, l: Layout) {
    && f.bytsPerSec == l.ss && f.numFats == 1 && f.secPerClus == l.au && f.rsvdSecCnt == l.nRsv
    && f.rootEntCnt == (if l.fatType == Fat32 then 0 else N_ROOTDIR)
    && f.Total() == l.nVol && f.FatSize() == l.nFat
    && (l.fatType == Fat32 ==> f.rootClus == 2 && f.fsInfo == 1)
  }

  lemma FieldsOfVbr(s: Sector, l: Layout)
    requires IsVbr(s, l) && Sound(l)
    ensures VbrFields(FieldsOf(s), l)
  {
    hide LdWord, LdDword, Tag, SubType, GoodUnit, UnitsIn, RootDirSectors;
  }

  lemma VbrLength(s: Sector, l: Layout)
    requires IsVbr(s, l)
    ensures |s| == l.ss >= 512
  {
  }

  /**
   * A boot record written by f_mkfs mounts exactly when the aligned layout leaves one cluster, and
   * then with the sub-type, areas and cluster count f_mkfs computed.
   */
  lemma FormatMounts(s: Sector, l: Layout)
    requires Sound(l) && IsVbr(s, l)
    ensures Analyse(FieldsOf(s), l.ss, l.bVol).Mounted? <==> l.Fits()
    ensures l.Fits() ==> Analyse(FieldsOf(s), l.ss, l.bVol) ==
                         Mounted(GeometryOf(l), if l.fatType == Fat32 then 0 else N_ROOTDIR, RootBase(l),
                                 if l.fatType == Fat32 then l.bVol + 1 else 0)
    ensures l.Fits() ==> GeometryOf(l).Valid() && GeometryOf(l).SectorCount() <= l.bVol + l.nVol
  {
    hide *;
    VbrLength(s, l);
    FieldsOfVbr(s, l);
    FieldsMount(FieldsOf(s), l);
  }

  lemma FieldsMount(f: Fields, l: Layout)
    requires Sound(l) && VbrFields(f, l)
    ensures Analyse(f, l.ss, l.bVol).Mounted? <==> l.Fits()
    ensures l.Fits() ==> Analyse(f, l.ss, l.bVol) ==
                         Mounted(GeometryOf(l), if l.fatType == Fat32 then 0 else N_ROOTDIR, RootBase(l),
                                 if l.fatType == Fat32 then l.bVol + 1 else 0)
    ensures l.Fits() ==> GeometryOf(l).Valid() && GeometryOf(l).SectorCount() <= l.bVol + l.nVol
  {
    hide Settle, PowerOfTwo, Wrap, Geometry.Valid, Geometry.SectorCount, PlannedFatBytes, SubType, UnitsIn,
         RootDirSectors, Fields.Total, Fields.FatSize, SystemArea, ClusterCount, SectorSizeOk;
    RootArea(l.ss);
    UnitIsPower(l.au);
    SystemAreaIs(f, l);
    WrapSmall(l.SystemSectors());
    if l.SystemSectors() <= l.nVol {
      CountIs(l);
      if l.Fits() {
        FieldsSettle(f, l);
        FewClusters(l);
        MountedIsValid(f, l.ss, l.bVol);
      } else {
        NoClusters(f, l);
      }
    }
  }

  lemma UnitIsPower(au: nat)
    requires GoodUnit(au)
    ensures au > 0 && PowerOfTwo(au)
  {
    assert PowerOfTwo(1) && PowerOfTwo(2) && PowerOfTwo(4) && PowerOfTwo(8);
    assert PowerOfTwo(16) && PowerOfTwo(32) && PowerOfTwo(64) && PowerOfTwo(128);
  }

  lemma SystemAreaIs(f: Fields, l: Layout)
    requires Sound(l) && VbrFields(f, l)
    ensures SystemArea(f, l.ss) == l.SystemSectors() < DWORD_SPAN
  {
    hide PowerOfTwo, PlannedFatBytes, UnitsIn, SubType, Layout.Clusters;
    RootArea(l.ss);
  }

  lemma CountIs(l: Layout)
    requires l.au > 0 && l.SystemSectors() <= l.nVol
    ensures ClusterCount(l.nVol, l.SystemSectors(), l.au) == UnitsIn(l.nVol - l.SystemSectors(), l.au)
  {
  }

  lemma NoClusters(f: Fields, l: Layout)
    requires SectorSizeOk(l.ss) && l.au > 0 && l.SystemSectors() <= l.nVol && !l.Fits()
    ensures Settle(f, l.ss, l.bVol, ClusterCount(l.nVol, l.SystemSectors(), l.au)) == NoFilesystem
  {
    DivBound(l.nVol - l.SystemSectors(), 1, l.au);
  }

  lemma FewClusters(l: Layout)
    requires l.au > 0 && l.Fits()
    ensures l.SystemSectors() + l.Clusters() <= l.nVol && l.Clusters() > 0
  {
    ClusterRoom(l.nVol, l.SystemSectors(), l.au);
    DivBound(l.nVol - l.SystemSectors(), 1, l.au);
  }

  /** The planned FAT of n clusters holds n + 2 entries, hence those of fewer clusters. */
  lemma PlannedHolds(fatType: FatType, m: nat, n: nat)
    requires m <= n
    ensures TableBytes(fatType, m + 2) <= PlannedFatBytes(fatType, n)
  {
  }

  lemma StorableParts(l: Layout)
    requires LayoutStorable(l)
    ensures SectorSizeOk(l.ss) && l.nRsv < 0x1_0000 && l.nFat < 0x1000_0000
  {
  }

  lemma FieldsSettle(f: Fields, l: Layout)
    requires Sound(l) && VbrFields(f, l) && l.Fits()
    ensures Settle(f, l.ss, l.bVol, l.Clusters()) ==
            Mounted(GeometryOf(l), if l.fatType == Fat32 then 0 else N_ROOTDIR, RootBase(l),
                    if l.fatType == Fat32 then l.bVol + 1 else 0)
  {
    hide PowerOfTwo, Wrap, PlannedFatBytes, SubType, UnitsIn, RootDirSectors, TableBytes,
         Fields.Total, Fields.FatSize, SystemArea, SectorSizeOk, Layout.Clusters, GoodUnit, LayoutStorable;
    StorableParts(l);
    RootArea(l.ss);
    UnitIsPower(l.au);
    FewClusters(l);
    SystemAreaIs(f, l);
    PlannedHolds(l.fatType, l.Clusters(), UnitsIn(l.nVol, l.au));
    TableBytesSmall(l.fatType, l.Clusters() + 2, l.ss);
    CeilLe(TableBytes(l.fatType, l.Clusters() + 2), l.ss, l.nFat);
    WrapSmall(l.SystemSectors());
    WrapSmall(l.bVol + l.SystemSectors());
    WrapSmall(l.bVol + l.nRsv);
    WrapSmall(l.bVol + l.nRsv + l.nFat);
    WrapSmall(l.bVol + 1);
  }
}
