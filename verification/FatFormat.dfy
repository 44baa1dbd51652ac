// Formatting a drive and mounting it again (dfs/ff.c: f_mkfs, check_fs, chk_mounted).
module FatFormat {
  import opened Words
  import opened FatVolume

  const N_ROOTDIR: nat := 512
  const SZ_DIR: nat := 32
  const FDISK_START: nat := 63

  predicate SectorSizeOk(ss: nat) {
    ss in {512, 1024, 2048, 4096}
  }

  /** What x & (x - 1) tests for a nonzero x. */
  predicate PowerOfTwo(n: nat) {
    n == 1 || (n > 1 && n % 2 == 0 && PowerOfTwo(n / 2))
  }

  /** The layout f_mkfs decides on; sizes and offsets in sectors. */
  datatype Layout = Layout(
    fatType: FatType,
    ss: nat,
    bVol: nat,  // volume start
    nVol: nat,  // volume size
    au: nat,    // cluster size
    nRsv: nat,  // reserved area, after alignment
    nFat: nat,  // one FAT, after alignment
    nDir: nat)  // root directory area
  {
    function SystemSectors(): nat {
      nRsv + nFat + nDir
    }

    /** The aligned layout still leaves one cluster. */
    predicate Fits() {
      SystemSectors() + au <= nVol
    }

    function Clusters(): nat
      requires au > 0 && Fits()
    {
      UnitsIn(nVol - SystemSectors(), au)
    }
  }

  datatype Plan = Planned(layout: Layout) | TooSmallDrive | Aborted

  function SubType(nclst: nat): FatType {
    if nclst >= MIN_FAT32 then Fat32 else if nclst >= MIN_FAT16 then Fat16 else Fat12
  }

  /** Bytes of a FAT for n clusters, as f_mkfs computes them. */
  function PlannedFatBytes(fatType: FatType, n: nat): nat {
    match fatType
    case Fat12 => (n * 3 + 1) / 2 + 3
    case Fat16 => n * 2 + 4
    case Fat32 => n * 4 + 8
  }

  function UnitsIn(n: nat, au: nat): nat
    requires au > 0
  {
    n / au
  }

  function RootDirSectors(ss: nat): nat
    requires SectorSizeOk(ss)
  {
    N_ROOTDIR * SZ_DIR / ss
  }

  function CeilDiv(n: nat, d: nat): nat
    requires d > 0
  {
    (n + d - 1) / d
  }

  /** The next multiple of a power of two: (x + n - 1) & ~(n - 1). */
  function AlignUp(x: nat, n: nat): (r: nat)
    requires n > 0
    ensures x <= r < x + n
  {
    (x + n - 1) / n * n
  }

  /** The layout with the smallest areas, for au sectors per cluster. */
  function BaseLayout(ss: nat, nDrive: nat, sfd: bool, au: nat): Layout
    requires SectorSizeOk(ss) && au > 0 && nDrive >= 128
  {
    var bVol := if sfd then 0 else FDISK_START;
    var nVol := nDrive - bVol;
    var n := UnitsIn(nVol, au);
    Layout(SubType(n), ss, bVol, nVol, au,
           if SubType(n) == Fat32 then 32 else 1,
           CeilDiv(PlannedFatBytes(SubType(n), n), ss),
           if SubType(n) == Fat32 then 0 else RootDirSectors(ss))
  }

  /** The data area moved up to a multiple of n: FAT32 moves the FAT, the others lengthen it. */
  function Realigned(l: Layout, n: nat): Layout
    requires n > 0
  {
    var bData := l.bVol + l.SystemSectors();
    var gap := AlignUp(bData, n) - bData;
    if l.fatType == Fat32 then l.(nRsv := l.nRsv + gap) else l.(nFat := l.nFat + gap)
  }

  /** The final cluster count, on 32 bits: it wraps when the areas no longer fit. */
  function FinalClusters(l: Layout): nat
    requires l.au > 0
  {
    (l.nVol - l.SystemSectors()) % 0x1_0000_0000 / l.au
  }

  /** An erase block size the code takes as none counts as 1. */
  function BlockSectors(block: nat): (n: nat)
    ensures 0 < n <= 32768
  {
    if block == 0 || block > 32768 then 1 else block
  }

  /** The layout arithmetic of f_mkfs. */
  function PlanOf(ss: nat, nDrive: nat, sfd: bool, au: nat, block: nat): Plan
    requires SectorSizeOk(ss) && au > 0
  {
    if nDrive < 128 then TooSmallDrive else
    var base := BaseLayout(ss, nDrive, sfd, au);
    if base.nVol < base.bVol + base.SystemSectors() + au then Aborted else
    var l := Realigned(base, BlockSectors(block));
    if (l.fatType == Fat16 && FinalClusters(l) < MIN_FAT16) || (l.fatType == Fat32 && FinalClusters(l) < MIN_FAT32)
    then Aborted else Planned(l)
  }

  /** The allocation unit, in sectors: the caller's if it is a power of two, else by volume size. */
  function AutoUnit(vs: nat): nat {
    if vs >= 1024 then 32768
    else if vs >= 512 then 16384
    else if vs >= 256 then 8192
    else if vs >= 128 then 4096
    else if vs >= 64 then 2048
    else if vs >= 32 then 16384
    else if vs >= 16 then 8192
    else if vs >= 8 then 4096
    else if vs >= 4 then 2048
    else if vs >= 2 then 1024
    else 512
  }

  /** Volume sizes are classed in units of about a megabyte. */
  function SizeClass(ss: nat, nVol: nat): nat
    requires SectorSizeOk(ss)
  {
    nVol / (2000 / (ss / 512))
  }

  function UnitSectors(ss: nat, nVol: nat, au: nat): (r: nat)
    requires SectorSizeOk(ss)
    ensures 0 < r <= 128
  {
    var bytes := if PowerOfTwo(au) then au else AutoUnit(SizeClass(ss, nVol));
    var n := bytes / ss;
    if n == 0 then 1 else if n > 128 then 128 else n
  }

  method ChooseUnit(ss: nat, nVol: nat, au: nat) returns (n: nat)
    requires SectorSizeOk(ss)
    ensures n == UnitSectors(ss, nVol, au)
    ensures n in {1, 2, 4, 8, 16, 32, 64, 128}
  {
    hide PowerOfTwo, AutoUnit, SizeClass;
    var vst := [1024, 512, 256, 128, 64, 32, 16, 8, 4, 2, 0];
    var cst := [32768, 16384, 8192, 4096, 2048, 16384, 8192, 4096, 2048, 1024, 512];
    var bytes := if PowerOfTwo(au) then au else 0;
    PowerPositive(au);
    if bytes == 0 {
      var vs := SizeClass(ss, nVol);
      var i := 0;
      while vs < vst[i]
        invariant 0 <= i <= 10
        invariant forall j | 0 <= j < i :: vs < vst[j]
        decreases 10 - i
      {
        i := i + 1;
      }
      bytes := cst[i];
      UnitIs(vs, i, vst, cst);
      AutoUnitPower(vs);
    }
    UnitPower(bytes, ss);
    n := bytes / ss;
    if n == 0 { n := 1; }
    if n > 128 { n := 128; }
  }

  lemma PowerPositive(n: nat)
    ensures PowerOfTwo(n) ==> n > 0
  {
  }

  lemma AutoUnitPower(vs: nat)
    ensures PowerOfTwo(AutoUnit(vs))
  {
    assert PowerOfTwo(512);
    assert PowerOfTwo(1024) && PowerOfTwo(2048);
    assert PowerOfTwo(4096) && PowerOfTwo(8192);
    assert PowerOfTwo(16384) && PowerOfTwo(32768);
  }

  /** Halving a power of two k times gives a power of two or zero. */
  lemma {:induction false} HalveTimes(b: nat, d: nat)
    requires PowerOfTwo(b) && PowerOfTwo(d) && d > 0
    ensures b / d == 0 || PowerOfTwo(b / d)
    decreases d
  {
    if d > 1 {
      ModSplit(b, 2, d / 2);
      assert b / d == b / 2 / (d / 2);
      if b > 1 { HalveTimes(b / 2, d / 2); } else { DivBound(0, 1, d / 2); }
    }
  }

  lemma {:induction false} SmallPower(n: nat)
    requires PowerOfTwo(n) && n < 256
    ensures n in {1, 2, 4, 8, 16, 32, 64, 128}
  {
    if n > 1 { SmallPower(n / 2); }
  }

  lemma SectorSizePower(ss: nat)
    requires SectorSizeOk(ss)
    ensures PowerOfTwo(ss)
  {
    assert PowerOfTwo(512);
    assert PowerOfTwo(1024) && PowerOfTwo(2048) && PowerOfTwo(4096);
  }

  lemma UnitPower(bytes: nat, ss: nat)
    requires PowerOfTwo(bytes) && SectorSizeOk(ss)
    ensures bytes / ss == 0 || bytes / ss > 128 || bytes / ss in {1, 2, 4, 8, 16, 32, 64, 128}
  {
    hide PowerOfTwo;
    SectorSizePower(ss);
    HalveTimes(bytes, ss);
    if 0 < bytes / ss <= 128 { SmallPower(bytes / ss); }
  }

  lemma UnitIs(vs: nat, i: nat, vst: seq<nat>, cst: seq<nat>)
    requires vst == [1024, 512, 256, 128, 64, 32, 16, 8, 4, 2, 0]
    requires cst == [32768, 16384, 8192, 4096, 2048, 16384, 8192, 4096, 2048, 1024, 512]
    requires i <= 10 && vs >= vst[i] && forall j | 0 <= j < i :: vs < vst[j]
    ensures cst[i] == AutoUnit(vs)
  {
    if i > 0 { assert vs < vst[i - 1]; }
  }

  // ----- The volume boot record -----

  const BPB_BYTS_PER_SEC: nat := 11
  const BPB_SEC_PER_CLUS: nat := 13
  const BPB_RSVD_SEC_CNT: nat := 14
  const BPB_NUM_FATS: nat := 16
  const BPB_ROOT_ENT_CNT: nat := 17
  const BPB_TOT_SEC16: nat := 19
  const BPB_MEDIA: nat := 21
  const BPB_FAT_SZ16: nat := 22
  const BPB_SEC_PER_TRK: nat := 24
  const BPB_NUM_HEADS: nat := 26
  const BPB_HIDD_SEC: nat := 28
  const BPB_TOT_SEC32: nat := 32
  const BPB_FAT_SZ32: nat := 36
  const BPB_ROOT_CLUS: nat := 44
  const BPB_FS_INFO: nat := 48
  const BPB_BK_BOOT_SEC: nat := 50
  const BS_FIL_SYS_TYPE: nat := 54
  const BS_FIL_SYS_TYPE32: nat := 82
  const BS_55AA: nat := 510
  const MBR_TABLE: nat := 446
  const FAT_STRING: nat := 0x544146
  const SIGNATURE: nat := 0xAA55

  /** The low three bytes of the dword at i. */
  function Tag(s: Sector, i: nat): nat
    requires i + 4 <= |s|
  {
    LdDword(s, i) % 0x100_0000
  }

  /** What chk_mounted reads from a boot record that f_mkfs wrote for layout l. */
  ghost predicate IsVbr(s: Sector, l: Layout) {
    && |s| == l.ss >= 512
    && LdWord(s, BPB_BYTS_PER_SEC) == l.ss
    && s[BPB_SEC_PER_CLUS] == l.au
    && LdWord(s, BPB_RSVD_SEC_CNT) == l.nRsv
    && s[BPB_NUM_FATS] == 1
    && LdWord(s, BPB_ROOT_ENT_CNT) == (if l.fatType == Fat32 then 0 else N_ROOTDIR)
    && LdWord(s, BPB_TOT_SEC16) == (if l.nVol < 0x1_0000 then l.nVol else 0)
    && (l.nVol >= 0x1_0000 ==> LdDword(s, BPB_TOT_SEC32) == l.nVol)
    && LdWord(s, BPB_FAT_SZ16) == (if l.fatType == Fat32 then 0 else l.nFat)
    && (l.fatType == Fat32 ==>
          LdDword(s, BPB_FAT_SZ32) == l.nFat && LdDword(s, BPB_ROOT_CLUS) == 2 && LdWord(s, BPB_FS_INFO) == 1)
    && LdWord(s, BS_55AA) == SIGNATURE
    && (if l.fatType == Fat32 then Tag(s, BS_FIL_SYS_TYPE32) == FAT_STRING else Tag(s, BS_FIL_SYS_TYPE) == FAT_STRING)
  }

  method Store(tbl: array<byte>, i: nat, bs: seq<byte>)
    requires i + |bs| <= tbl.Length
    modifies tbl
    ensures forall j | 0 <= j < tbl.Length :: tbl[j] == if i <= j < i + |bs| then bs[j - i] else old(tbl[j])
  {
    forall k | 0 <= k < |bs| { tbl[i + k] := bs[k]; }
  }

  const OEM_NAME: seq<byte> := [0xEB, 0xFE, 0x90, 0x4D, 0x53, 0x44, 0x4F, 0x53, 0x35, 0x2E, 0x30]
  const NO_NAME: seq<byte> := [0x4E, 0x4F, 0x20, 0x4E, 0x41, 0x4D, 0x45, 0x20, 0x20, 0x20, 0x20]
  const FAT32_LABEL: seq<byte> := NO_NAME + [0x46, 0x41, 0x54, 0x33, 0x32, 0x20, 0x20, 0x20]
  const FAT_LABEL: seq<byte> := NO_NAME + [0x46, 0x41, 0x54, 0x20, 0x20, 0x20, 0x20, 0x20]

  /** What f_mkfs puts into the boot record's fields that matter to a mount. */
  ghost predicate LayoutStorable(l: Layout) {
    && SectorSizeOk(l.ss) && 0 < l.au <= 128 && l.nRsv < 0x1_0000 && l.nVol < 0x1_0000_0000 && l.nFat < 0x1000_0000
    && (l.fatType != Fat32 ==> l.nFat < 0x1_0000)
  }

  /** The bytes of s from i on are bs. */
  ghost predicate At(s: Sector, i: nat, bs: seq<byte>) {
    i + |bs| <= |s| && forall k | 0 <= k < |bs| :: s[i + k] == bs[k]
  }

  /** Fields up to the root entry count; the rest of the sector is zero. */
  method WriteHead(tbl: array<byte>, l: Layout, n: nat)
    requires LayoutStorable(l) && tbl.Length == l.ss
    modifies tbl
    ensures At(tbl[..], BPB_BYTS_PER_SEC, WordBytes(l.ss)) && tbl[BPB_SEC_PER_CLUS] == l.au
    ensures At(tbl[..], BPB_RSVD_SEC_CNT, WordBytes(l.nRsv)) && tbl[BPB_NUM_FATS] == 1
    ensures At(tbl[..], BPB_ROOT_ENT_CNT, WordBytes(n))
    ensures forall j | 19 <= j < tbl.Length :: tbl[j] == 0
  {
    hide Byte;
    forall i | 0 <= i < tbl.Length { tbl[i] := 0; }
    Store(tbl, 0, OEM_NAME);
    Store(tbl, BPB_BYTS_PER_SEC, WordBytes(l.ss));
    tbl[BPB_SEC_PER_CLUS] := l.au;
    Store(tbl, BPB_RSVD_SEC_CNT, WordBytes(l.nRsv));
    tbl[BPB_NUM_FATS] := 1;
    Store(tbl, BPB_ROOT_ENT_CNT, WordBytes(n));
  }

  /** The volume size and the fields nobody reads back at mount. */
  method WriteSize(tbl: array<byte>, l: Layout, md: byte)
    requires LayoutStorable(l) && tbl.Length == l.ss
    requires forall j | 19 <= j < tbl.Length :: tbl[j] == 0
    modifies tbl
    ensures forall j | 0 <= j < tbl.Length && (j < 19 || 22 <= j < 24 || 36 <= j) :: tbl[j] == old(tbl[j])
    ensures At(tbl[..], BPB_TOT_SEC16, if l.nVol < 0x1_0000 then WordBytes(l.nVol) else [0, 0])
    ensures l.nVol >= 0x1_0000 ==> At(tbl[..], BPB_TOT_SEC32, DwordBytes(l.nVol))
  {
    hide Byte;
    if l.nVol < 0x1_0000 {
      Store(tbl, BPB_TOT_SEC16, WordBytes(l.nVol));
    } else {
      Store(tbl, BPB_TOT_SEC32, DwordBytes(l.nVol));
    }
    tbl[BPB_MEDIA] := md;
    Store(tbl, BPB_SEC_PER_TRK, WordBytes(63));
    Store(tbl, BPB_NUM_HEADS, WordBytes(255));
    Store(tbl, BPB_HIDD_SEC, DwordBytes(l.bVol));
  }

  /** The fields of a FAT32 record. */
  method WriteTail32(tbl: array<byte>, l: Layout, vsn: nat)
    requires tbl.Length == l.ss >= 512
    modifies tbl
    ensures forall j | 0 <= j < 36 :: tbl[j] == old(tbl[j])
    ensures At(tbl[..], BPB_FAT_SZ32, DwordBytes(l.nFat)) && At(tbl[..], BPB_ROOT_CLUS, DwordBytes(2))
    ensures At(tbl[..], BPB_FS_INFO, WordBytes(1)) && At(tbl[..], BS_FIL_SYS_TYPE32, [0x46, 0x41, 0x54])
  {
    hide Byte, WordBytes, DwordBytes, At;
    Store(tbl, 67, DwordBytes(vsn));
    Store(tbl, BPB_FAT_SZ32, DwordBytes(l.nFat));
    Store(tbl, BPB_ROOT_CLUS, DwordBytes(2));
    Store(tbl, BPB_FS_INFO, WordBytes(1));
    Store(tbl, BPB_BK_BOOT_SEC, WordBytes(6));
    tbl[64] := 0x80;
    tbl[66] := 0x29;
    Store(tbl, 71, FAT32_LABEL);
    StoredAt(tbl[..], BPB_FAT_SZ32, DwordBytes(l.nFat));
    StoredAt(tbl[..], BPB_ROOT_CLUS, DwordBytes(2));
    StoredAt(tbl[..], BPB_FS_INFO, WordBytes(1));
    StoredAt(tbl[..], BS_FIL_SYS_TYPE32, [0x46, 0x41, 0x54]);
  }

  /** The fields of a FAT12 or FAT16 record. */
  method WriteTail16(tbl: array<byte>, l: Layout, vsn: nat)
    requires tbl.Length == l.ss >= 512
    modifies tbl
    ensures forall j | 0 <= j < 22 || 24 <= j < 36 :: tbl[j] == old(tbl[j])
    ensures At(tbl[..], BPB_FAT_SZ16, WordBytes(l.nFat)) && At(tbl[..], BS_FIL_SYS_TYPE, [0x46, 0x41, 0x54])
  {
    hide Byte, WordBytes, DwordBytes, At;
    Store(tbl, 39, DwordBytes(vsn));
    Store(tbl, BPB_FAT_SZ16, WordBytes(l.nFat));
    tbl[36] := 0x80;
    tbl[38] := 0x29;
    Store(tbl, 43, FAT_LABEL);
    StoredAt(tbl[..], BPB_FAT_SZ16, WordBytes(l.nFat));
    StoredAt(tbl[..], BS_FIL_SYS_TYPE, [0x46, 0x41, 0x54]);
  }

  /** The fields that depend on the sub-type, and the signature. */
  method WriteTail(tbl: array<byte>, l: Layout, vsn: nat)
    requires LayoutStorable(l) && tbl.Length == l.ss && tbl[22] == tbl[23] == 0
    modifies tbl
    ensures forall j | 0 <= j < 22 || 24 <= j < 36 :: tbl[j] == old(tbl[j])
    ensures At(tbl[..], BPB_FAT_SZ16, if l.fatType == Fat32 then [0, 0] else WordBytes(l.nFat))
    ensures l.fatType == Fat32 ==>
              && At(tbl[..], BPB_FAT_SZ32, DwordBytes(l.nFat)) && At(tbl[..], BPB_ROOT_CLUS, DwordBytes(2))
              && At(tbl[..], BPB_FS_INFO, WordBytes(1))
    ensures At(tbl[..], if l.fatType == Fat32 then BS_FIL_SYS_TYPE32 else BS_FIL_SYS_TYPE, [0x46, 0x41, 0x54])
    ensures At(tbl[..], BS_55AA, WordBytes(SIGNATURE))
  {
    hide Byte, WordBytes, DwordBytes, At;
    ghost var tag := if l.fatType == Fat32 then BS_FIL_SYS_TYPE32 else BS_FIL_SYS_TYPE;
    if l.fatType == Fat32 {
      WriteTail32(tbl, l, vsn);
      StoredAt(tbl[..], BPB_FAT_SZ16, [0, 0]);
    } else {
      WriteTail16(tbl, l, vsn);
    }
    ghost var s: Sector := tbl[..];
    Store(tbl, BS_55AA, WordBytes(SIGNATURE));
    StoredAt(tbl[..], BS_55AA, WordBytes(SIGNATURE));
    AtFrame(s, tbl[..], BPB_FAT_SZ16, if l.fatType == Fat32 then [0, 0] else WordBytes(l.nFat));
    AtFrame(s, tbl[..], tag, [0x46, 0x41, 0x54]);
    if l.fatType == Fat32 {
      AtFrame(s, tbl[..], BPB_FAT_SZ32, DwordBytes(l.nFat));
      AtFrame(s, tbl[..], BPB_ROOT_CLUS, DwordBytes(2));
      AtFrame(s, tbl[..], BPB_FS_INFO, WordBytes(1));
    }
  }

  /** The volume boot record of f_mkfs. */
  method WriteVbr(tbl: array<byte>, l: Layout, md: byte, vsn: nat)
    requires LayoutStorable(l) && tbl.Length == l.ss
    modifies tbl
    ensures IsVbr(tbl[..], l)
  {
    hide Byte, WordBytes, DwordBytes, At;
    var n := if l.fatType == Fat32 then 0 else N_ROOTDIR;
    WriteHead(tbl, l, n);
    ghost var s1: Sector := tbl[..];
    WriteSize(tbl, l, md);
    ghost var s2: Sector := tbl[..];
    WriteTail(tbl, l, vsn);
    AtFrame(s1, tbl[..], BPB_BYTS_PER_SEC, WordBytes(l.ss));
    AtFrame(s1, tbl[..], BPB_RSVD_SEC_CNT, WordBytes(l.nRsv));
    AtFrame(s1, tbl[..], BPB_ROOT_ENT_CNT, WordBytes(n));
    AtFrame(s2, tbl[..], BPB_TOT_SEC16, if l.nVol < 0x1_0000 then WordBytes(l.nVol) else [0, 0]);
    if l.nVol >= 0x1_0000 { AtFrame(s2, tbl[..], BPB_TOT_SEC32, DwordBytes(l.nVol)); }
    VbrFromFields(tbl[..], l, n);
  }

  lemma StoredAt(s: Sector, i: nat, bs: seq<byte>)
    requires i + |bs| <= |s| && forall j | i <= j < i + |bs| :: s[j] == bs[j - i]
    ensures At(s, i, bs)
  {
  }

  lemma AtFrame(s: Sector, t: Sector, i: nat, bs: seq<byte>)
    requires At(s, i, bs) && |s| == |t| && forall j | i <= j < i + |bs| && j < |s| :: s[j] == t[j]
    ensures At(t, i, bs)
  {
  }

  /** At, read back as numbers. */
  lemma WordAt(s: Sector, i: nat, v: nat)
    requires v < 0x1_0000 && At(s, i, WordBytes(v))
    ensures i + 2 <= |s| && LdWord(s, i) == v
  {
    hide Byte, Pair;
    WordRead(v);
    var bs := WordBytes(v);
    assert s[i + 0] == bs[0] && s[i + 1] == bs[1];
  }

  lemma DwordAt(s: Sector, i: nat, v: nat)
    requires v < 0x1_0000_0000 && At(s, i, DwordBytes(v))
    ensures i + 4 <= |s| && LdDword(s, i) == v
  {
    hide Byte, Quad;
    DwordRead(v);
    var bs := DwordBytes(v);
    assert s[i + 0] == bs[0] && s[i + 1] == bs[1] && s[i + 2] == bs[2] && s[i + 3] == bs[3];
  }

  lemma ZeroWordAt(s: Sector, i: nat)
    requires At(s, i, [0, 0])
    ensures i + 2 <= |s| && LdWord(s, i) == 0
  {
    var bs: seq<byte> := [0, 0];
    assert s[i + 0] == bs[0] && s[i + 1] == bs[1];
  }

  lemma TagAt(s: Sector, i: nat)
    requires At(s, i, [0x46, 0x41, 0x54]) && i + 4 <= |s|
    ensures Tag(s, i) == FAT_STRING
  {
    var bs: seq<byte> := [0x46, 0x41, 0x54];
    assert s[i + 0] == bs[0] && s[i + 1] == bs[1] && s[i + 2] == bs[2];
    TagOf(s[i + 3]);
  }

  lemma TagOf(b: byte)
    ensures Quad(0x46, 0x41, 0x54, b) % 0x100_0000 == FAT_STRING
  {
    DivModUnique(Quad(0x46, 0x41, 0x54, b), b, 0x544146, 0x100_0000);
  }

  lemma VbrFromFields(s: Sector, l: Layout, n: nat)
    requires LayoutStorable(l) && |s| == l.ss && n == if l.fatType == Fat32 then 0 else N_ROOTDIR
    requires At(s, BPB_BYTS_PER_SEC, WordBytes(l.ss)) && s[BPB_SEC_PER_CLUS] == l.au
    requires At(s, BPB_RSVD_SEC_CNT, WordBytes(l.nRsv)) && s[BPB_NUM_FATS] == 1
    requires At(s, BPB_ROOT_ENT_CNT, WordBytes(n))
    requires At(s, BPB_TOT_SEC16, if l.nVol < 0x1_0000 then WordBytes(l.nVol) else [0, 0])
    requires l.nVol >= 0x1_0000 ==> At(s, BPB_TOT_SEC32, DwordBytes(l.nVol))
    requires At(s, BPB_FAT_SZ16, if l.fatType == Fat32 then [0, 0] else WordBytes(l.nFat))
    requires l.fatType == Fat32 ==>
               && At(s, BPB_FAT_SZ32, DwordBytes(l.nFat)) && At(s, BPB_ROOT_CLUS, DwordBytes(2))
               && At(s, BPB_FS_INFO, WordBytes(1))
    requires At(s, if l.fatType == Fat32 then BS_FIL_SYS_TYPE32 else BS_FIL_SYS_TYPE, [0x46, 0x41, 0x54])
    requires At(s, BS_55AA, WordBytes(SIGNATURE))
    ensures IsVbr(s, l)
  {
    hide At, LdWord, LdDword, WordBytes, DwordBytes, Tag;
    WordAt(s, BPB_BYTS_PER_SEC, l.ss);
    WordAt(s, BPB_RSVD_SEC_CNT, l.nRsv);
    WordAt(s, BPB_ROOT_ENT_CNT, n);
    WordAt(s, BS_55AA, SIGNATURE);
    if l.nVol < 0x1_0000 {
      WordAt(s, BPB_TOT_SEC16, l.nVol);
    } else {
      ZeroWordAt(s, BPB_TOT_SEC16);
      DwordAt(s, BPB_TOT_SEC32, l.nVol);
    }
    if l.fatType == Fat32 {
      ZeroWordAt(s, BPB_FAT_SZ16);
      DwordAt(s, BPB_FAT_SZ32, l.nFat);
      DwordAt(s, BPB_ROOT_CLUS, 2);
      WordAt(s, BPB_FS_INFO, 1);
      TagAt(s, BS_FIL_SYS_TYPE32);
    } else {
      WordAt(s, BPB_FAT_SZ16, l.nFat);
      TagAt(s, BS_FIL_SYS_TYPE);
    }
  }
}
